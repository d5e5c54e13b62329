/** A protein: a validated, mutable chain of one-letter residue codes. */
module Proteins {
  import opened ResidueTable
  import opened Normalise
  import opened Weights

  /** Where a walk along the chain stops: at the node holding position
      `index`, or past either end (a null node pointer). */
  datatype Cursor = Null | Node(index: nat)

  /** What reading a residue's name through a cursor yields when nothing
      checks the cursor first: the name, or a dereference of a null node. */
  datatype Deref = Named(name: string) | NullDereference

  /** The bounds-checked residue name lookup. */
  datatype NameLookup = Found(name: string) | OutOfRange(n: int)

  class Protein {
    /** The codes from the front node (position 0, `cTerm`) to the back. */
    var codes: seq<Char8>
    /** The residue count the protein keeps beside its chain. */
    var len: int

    /** The count matches the chain and only accepted codes are stored. */
    ghost predicate Valid()
      reads this
    {
      len == |codes| && AllCodes(codes)
    }

    /** The empty protein. */
    constructor ()
      ensures Valid() && codes == [] && len == 0
    {
      codes, len := [], 0;
    }

    /** A protein built from text: the text is upper-cased and, only if every
        resulting character is an accepted code, appended code by code;
        otherwise the protein stays empty. */
    constructor FromText(sequence: seq<Char8>)
      ensures Valid()
      ensures codes == if AllCodes(Upper(sequence)) then Upper(sequence) else []
      ensures len == if AllCodes(Upper(sequence)) then |sequence| else 0
    {
      codes, len := [], 0;
      new;
      var upper := UpperCase(sequence);
      var ok := CheckChars(upper);
      if !ok {
        return;
      }
      var i := 0;
      while i < |upper|
        invariant 0 <= i <= |upper|
        invariant AllCodes(upper)
        invariant Valid() && codes == upper[..i]
      {
        assert upper[..i + 1] == upper[..i] + [upper[i]];
        assert IsCode(upper[i]);
        Append(upper[i]);
        i := i + 1;
      }
      assert upper[..i] == upper;
      len := i;
    }

    /** Adds an accepted code after the last residue; any other character,
        lower-case letters included, is ignored. */
    method Append(abbr: Char8)
      requires Valid()
      modifies this
      ensures Valid()
      ensures IsCode(abbr) ==> codes == old(codes) + [abbr] && len == old(len) + 1
      ensures !IsCode(abbr) ==> codes == old(codes) && len == old(len)
    {
      if !CheckChar(abbr) {
        return;
      }
      codes := codes + [abbr];
      len := len + 1;
    }

    /** Puts an accepted code at position `n`, so that it becomes residue `n`;
        an unaccepted code or a position outside 0..len is ignored, and
        position len is an append. */
    method Insert(abbr: Char8, n: int)
      requires Valid()
      modifies this
      ensures Valid()
      ensures IsCode(abbr) && 0 <= n <= old(len) ==>
                codes == old(codes)[..n] + [abbr] + old(codes)[n..] && len == old(len) + 1
      ensures IsCode(abbr) && n == old(len) ==> codes == old(codes) + [abbr]
      ensures IsCode(abbr) && n == 0 ==> codes == [abbr] + old(codes)
      ensures !IsCode(abbr) || n < 0 || n > old(len) ==>
                codes == old(codes) && len == old(len)
    {
      if !CheckChar(abbr) {
        return;
      }
      if n > len || n < 0 {
        return;
      }
      if n == len {
        Append(abbr);
        assert codes == old(codes)[..n] + [abbr] + old(codes)[n..];
        return;
      }
      if n == 0 {
        codes := [abbr] + codes;
        len := len + 1;
        assert codes == old(codes)[..0] + [abbr] + old(codes)[0..];
        return;
      }
      codes := codes[..n] + [abbr] + codes[n..];
      len := len + 1;
    }

    /** The residue count. */
    method Size() returns (n: int)
      requires Valid()
      ensures n == |codes|
    {
      return len;
    }

    /** The walk from the first residue to position `n`. Its guard rejects
        only `n > len`, so `n == len` walks off the last node to a null
        cursor, and a negative `n` stops at the first residue. */
    method AaAt(n: int) returns (at: Cursor)
      requires Valid()
      ensures 0 <= n < len ==> at == Node(n)
      ensures n >= len ==> at == Null
      ensures n < 0 ==> at == if len == 0 then Null else Node(0)
    {
      if n > len {
        return Null;
      }
      var curr := if len == 0 then Null else Node(0);
      var i := 0;
      while i < n
        invariant 0 <= i <= if n < 0 then 0 else n
        invariant curr == if i < len then Node(i) else Null
      {
        curr := if curr.index + 1 < len then Node(curr.index + 1) else Null;
        i := i + 1;
      }
      return curr;
    }

    /** The residue name lookup as the chain's own code performs it: the
        cursor from AaAt is dereferenced unchecked, so every position at or
        past the end (and any position on an empty chain) dereferences a
        null node, and a negative position reads the first residue. */
    method ResidueAtAsWritten(n: int) returns (r: Deref)
      requires Valid()
      ensures 0 <= n < len ==> r == Named(Name(codes[n]))
      ensures n < 0 && len > 0 ==> r == Named(Name(codes[0]))
      ensures n >= len || (n < 0 && len == 0) ==> r == NullDereference
    {
      var aa := AaAt(n);
      if aa == Null {
        return NullDereference;
      }
      return Named(Name(codes[aa.index]));
    }

    /** The full name of residue `n`, or an explicit out-of-range failure
        when `n` is not a position of the chain. */
    method ResidueAt(n: int) returns (r: NameLookup)
      requires Valid()
      ensures r.Found? <==> 0 <= n < |codes|
      ensures r.Found? ==> r.name == Name(codes[n])
      ensures r.OutOfRange? ==> r.n == n
    {
      if n < 0 || n >= len {
        return OutOfRange(n);
      }
      var aa := AaAt(n);
      return Found(Name(codes[aa.index]));
    }

    /** The codes rendered as text, front node first. */
    method Seq() returns (prot: seq<Char8>)
      requires Valid()
      ensures prot == codes && |prot| == len
    {
      prot := [];
      var curr := 0;
      while curr < |codes|
        invariant 0 <= curr <= |codes|
        invariant prot == codes[..curr]
      {
        prot := prot + [codes[curr]];
        curr := curr + 1;
      }
      assert codes[..curr] == codes;
    }

    /** The molecular weight in kilodaltons: 0 for the empty chain, else the
        residue masses less one water per peptide bond, over 1000. */
    method ProtWeight() returns (w: real)
      requires Valid()
      ensures w == ChainWeight(codes)
      ensures codes == [] ==> w == 0.0
    {
      if len == 0 {
        return 0.0;
      }
      var weight := 0.0;
      var cntr := 0;
      var water := Water;
      while cntr < |codes|
        invariant 0 <= cntr <= |codes|
        invariant AllCodes(codes[..cntr])
        invariant weight == MassSum(codes[..cntr])
      {
        assert codes[..cntr + 1][..cntr] == codes[..cntr];
        weight := weight + Mass(codes[cntr]);
        cntr := cntr + 1;
      }
      assert codes[..cntr] == codes;
      water := water * (cntr - 1) as real;
      w := (weight - water) / 1000.0;
    }
  }
}
