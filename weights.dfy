/** The molecular weight of a chain of residue codes, in exact arithmetic. */
module Weights {
  import opened ResidueTable

  /** Sum of the tabulated residue masses, accumulated from the first code on. */
  function MassSum(s: seq<Char8>): (m: real)
    requires AllCodes(s)
    ensures |s| as real * MinMass <= m <= |s| as real * MaxMass
  {
    if s == [] then 0.0 else MassSum(s[..|s| - 1]) + Mass(s[|s| - 1])
  }

  /** Weight in kilodaltons: the residue masses less one water per peptide
      bond, over 1000; exactly 0 for the empty chain. */
  function ChainWeight(s: seq<Char8>): real
    requires AllCodes(s)
  {
    if s == [] then 0.0 else (MassSum(s) - (|s| - 1) as real * Water) / 1000.0
  }

  lemma {:induction false} MassSumAppend(s: seq<Char8>, c: Char8)
    requires AllCodes(s) && IsCode(c)
    ensures AllCodes(s + [c])
    ensures MassSum(s + [c]) == MassSum(s) + Mass(c)
  {
    assert (s + [c])[..|s|] == s;
  }

  /** The mass sum does not depend on how the chain is split. */
  lemma {:induction false} MassSumConcat(a: seq<Char8>, b: seq<Char8>)
    requires AllCodes(a) && AllCodes(b)
    ensures AllCodes(a + b)
    ensures MassSum(a + b) == MassSum(a) + MassSum(b)
  {
    if b == [] {
      assert a + b == a;
    } else {
      var b' := b[..|b| - 1];
      var c := b[|b| - 1];
      assert b == b' + [c];
      assert a + b == (a + b') + [c];
      MassSumConcat(a, b');
      MassSumAppend(a + b', c);
      MassSumAppend(b', c);
    }
  }

  /** Putting a code between two chains adds exactly its mass. */
  lemma {:induction false} MassSumSplice(front: seq<Char8>, c: Char8, back: seq<Char8>)
    requires AllCodes(front) && IsCode(c) && AllCodes(back)
    ensures AllCodes(front + [c] + back) && AllCodes(front + back)
    ensures MassSum(front + [c] + back) == MassSum(front + back) + Mass(c)
  {
    MassSumAppend(front, c);
    MassSumConcat(front + [c], back);
    MassSumConcat(front, back);
  }

  /** Inserting a code anywhere adds exactly its mass. */
  lemma {:induction false} MassSumInsert(s: seq<Char8>, c: Char8, n: int)
    requires AllCodes(s) && IsCode(c) && 0 <= n <= |s|
    ensures AllCodes(s[..n] + [c] + s[n..])
    ensures MassSum(s[..n] + [c] + s[n..]) == MassSum(s) + Mass(c)
  {
    assert AllCodes(s[..n]) && AllCodes(s[n..]);
    MassSumSplice(s[..n], c, s[n..]);
    assert s[..n] + s[n..] == s;
  }

  /** Adding one residue to a non-empty chain adds its mass less one water;
      adding it to the empty chain gives its mass alone. Either way the
      weight strictly grows, since every residue outweighs a water. */
  lemma {:induction false} WeightAppend(s: seq<Char8>, c: Char8)
    requires AllCodes(s) && IsCode(c)
    ensures AllCodes(s + [c])
    ensures s == [] ==> ChainWeight(s + [c]) == Mass(c) / 1000.0
    ensures s != [] ==> ChainWeight(s + [c]) == ChainWeight(s) + (Mass(c) - Water) / 1000.0
    ensures ChainWeight(s + [c]) > ChainWeight(s)
  {
    MassSumAppend(s, c);
    if s == [] {
      assert [c][..0] == [];
    }
  }

  /** The weight of a chain does not depend on where a residue was inserted:
      inserting at any position weighs the same as appending. */
  lemma {:induction false} WeightInsert(s: seq<Char8>, c: Char8, n: int)
    requires AllCodes(s) && IsCode(c) && 0 <= n <= |s|
    ensures AllCodes(s[..n] + [c] + s[n..])
    ensures ChainWeight(s[..n] + [c] + s[n..]) == ChainWeight(s + [c])
  {
    MassSumInsert(s, c, n);
    MassSumAppend(s, c);
  }

  /** A non-empty chain weighs at least one Glycine's worth and at most a chain
      of Tryptophans less its waters. */
  lemma {:induction false} WeightBounds(s: seq<Char8>)
    requires AllCodes(s) && s != []
    ensures MinMass / 1000.0 <= ChainWeight(s)
    ensures ChainWeight(s) <= (|s| as real * MaxMass - (|s| - 1) as real * Water) / 1000.0
  {
    assert MassSum(s) >= |s| as real * MinMass;
  }

  /** Alanine then Glycine: (89.09 + 75.07 - 18.0153) / 1000 kilodaltons. */
  lemma {:induction false} WeightOfAG()
    ensures AllCodes("AG")
    ensures ChainWeight("AG") == 0.1461447
  {
    var a: seq<Char8> := "A";
    var ag: seq<Char8> := "AG";
    assert Mass('A') == 89.09 && Mass('G') == 75.07;
    assert a[..0] == [] && ag[..1] == a;
    assert MassSum(a) == 89.09;
    assert MassSum(ag) == 89.09 + 75.07;
  }
}
