/**
 C layout of a structure: every field at the first offset after its predecessor that its
 alignment allows. Kernel and user code share structures by casting the same bytes.
 */
module Layout {
  import opened Machine

  datatype Slot = Slot(size: nat, align: nat)

  predicate Sensible(slots: seq<Slot>) {
    forall s :: s in slots ==> s.align > 0
  }

  /** The first multiple of a at or after x. */
  function AlignUp(x: nat, a: nat): (y: nat)
    requires a > 0
    ensures x <= y < x + a
  {
    if x % a == 0 then x else x + (a - x % a)
  }

  lemma {:induction false} AtLeastFactor(d: nat, a: nat)
    requires d > 0
    ensures d * a >= a
  {
    if d > 1 {
      AtLeastFactor(d - 1, a);
    }
  }

  lemma DivisionIsUnique(a: nat, q: nat, q': nat, r: nat)
    requires r < a && q * a == q' * a + r
    ensures r == 0
  {
    assert (q - q') * a == r;
    if q > q' {
      AtLeastFactor(q - q', a);
    } else if q < q' {
      assert (q' - q) * a == -(q - q') * a;
      AtLeastFactor(q' - q, a);
    }
  }

  lemma AlignUpIsMultiple(x: nat, a: nat)
    requires a > 0
    ensures AlignUp(x, a) % a == 0
  {
    var y := AlignUp(x, a);
    if x % a != 0 {
      DivisionIsUnique(a, x / a + 1, y / a, y % a);
    }
  }

  /** End of the first n fields. */
  function End(slots: seq<Slot>, n: nat): nat
    requires Sensible(slots) && n <= |slots|
    decreases n, 0
  {
    if n == 0 then 0 else Offset(slots, n - 1) + slots[n - 1].size
  }

  function Offset(slots: seq<Slot>, i: nat): nat
    requires Sensible(slots) && i < |slots|
    decreases i, 1
  {
    AlignUp(End(slots, i), slots[i].align)
  }

  /** Any structure: fields are aligned, disjoint and in order, with less padding than an alignment. */
  lemma {:induction false} FieldsAreDisjoint(slots: seq<Slot>, i: nat, j: nat)
    requires Sensible(slots) && i < j < |slots|
    ensures Offset(slots, i) % slots[i].align == 0
    ensures Offset(slots, i) + slots[i].size <= Offset(slots, j)
    ensures Offset(slots, j) < End(slots, j) + slots[j].align
  {
    AlignUpIsMultiple(End(slots, i), slots[i].align);
    if i + 1 < j {
      FieldsAreDisjoint(slots, i, j - 1);
    }
  }

  predicate Fits(fields: seq<seq<Byte>>, slots: seq<Slot>) {
    |fields| == |slots| && forall i :: 0 <= i < |slots| ==> |fields[i]| == slots[i].size
  }

  /** Memory holding the first n fields; padding bytes hold whatever they happen to hold. */
  function Image(fields: seq<seq<Byte>>, slots: seq<Slot>, pad: nat -> Byte, n: nat): (m: seq<Byte>)
    requires Sensible(slots) && Fits(fields, slots) && n <= |slots|
    ensures |m| == End(slots, n)
  {
    if n == 0 then []
    else
      var before := Image(fields, slots, pad, n - 1);
      var gap := seq(Offset(slots, n - 1) - |before|, (i: nat) => pad(|before| + i));
      before + gap + fields[n - 1]
  }

  /** Whatever the padding holds, every field is found whole at its offset. */
  lemma {:induction false} FieldIsAtItsOffset(fields: seq<seq<Byte>>, slots: seq<Slot>, pad: nat -> Byte, n: nat, i: nat)
    requires Sensible(slots) && Fits(fields, slots) && i < n <= |slots|
    ensures Offset(slots, i) + slots[i].size <= End(slots, n)
    ensures Image(fields, slots, pad, n)[Offset(slots, i)..Offset(slots, i) + slots[i].size] == fields[i]
  {
    if i + 1 < n {
      FieldIsAtItsOffset(fields, slots, pad, n - 1, i);
      var before, whole := Image(fields, slots, pad, n - 1), Image(fields, slots, pad, n);
      assert before == whole[..|before|];
      assert before[Offset(slots, i)..Offset(slots, i) + slots[i].size]
          == whole[Offset(slots, i)..Offset(slots, i) + slots[i].size];
    }
  }

  /** Between fields lies nothing but padding. */
  lemma {:induction false} GapIsPadding(fields: seq<seq<Byte>>, slots: seq<Slot>, pad: nat -> Byte, n: nat, i: nat, at: nat)
    requires Sensible(slots) && Fits(fields, slots) && i < n <= |slots|
    requires End(slots, i) <= at < Offset(slots, i)
    ensures at < End(slots, n) && Image(fields, slots, pad, n)[at] == pad(at)
  {
    if i + 1 < n {
      GapIsPadding(fields, slots, pad, n - 1, i, at);
      var before, whole := Image(fields, slots, pad, n - 1), Image(fields, slots, pad, n);
      assert before == whole[..|before|];
    }
  }
}
