/** Upper-casing and validation of the text a protein is built from. */
module Normalise {
  import opened ResidueTable

  /** The byte-level upper-casing of a protein: 'A'..'Z' are kept, every other
      byte (not only 'a'..'z') is moved down by 32, wrapping modulo 256. */
  function ToUpper(c: Char8): (u: Char8)
    ensures 'A' <= c <= 'Z' ==> u == c
    ensures 'a' <= c <= 'z' ==> 'A' <= u <= 'Z' && u as int == c as int - 32
    ensures !('A' <= c <= 'Z') ==> u as int == c as int - 32 || u as int == c as int + 224
  {
    if 'A' <= c <= 'Z' then c
    else if c as int >= 32 then (c as int - 32) as char
    else (c as int + 224) as char
  }

  /** Upper-casing of a whole string, character by character. */
  function Upper(s: seq<Char8>): (r: seq<Char8>)
    ensures |r| == |s|
  {
    if s == [] then [] else Upper(s[..|s| - 1]) + [ToUpper(s[|s| - 1])]
  }

  /** Each character of the upper-cased string is the upper-cased character
      at the same position. */
  lemma {:induction false} UpperAt(s: seq<Char8>, i: int)
    requires 0 <= i < |s|
    ensures Upper(s)[i] == ToUpper(s[i])
  {
    if i < |s| - 1 {
      UpperAt(s[..|s| - 1], i);
    }
  }

  /** The loop that builds the upper-cased copy of a string. */
  method UpperCase(s: seq<Char8>) returns (newS: seq<Char8>)
    ensures newS == Upper(s)
  {
    newS := [];
    var i := 0;
    while i < |s|
      invariant 0 <= i <= |s|
      invariant newS == Upper(s[..i])
    {
      var curr := ToUpper(s[i]);
      assert s[..i + 1][..i] == s[..i];
      newS := newS + [curr];
      i := i + 1;
    }
    assert s[..i] == s;
  }

  /** Validation of a whole string: true exactly when every character is an
      accepted code; the first rejected character ends the scan. */
  method CheckChars(s: seq<Char8>) returns (ok: bool)
    ensures ok <==> AllCodes(s)
    ensures !ok ==> exists i :: 0 <= i < |s| && !(s[i] in Library)
  {
    var size := |s|;
    var i := 0;
    while i < size
      invariant 0 <= i <= size
      invariant forall j :: 0 <= j < i ==> IsCode(s[j])
    {
      if !CheckChar(s[i]) {
        return false;
      }
      i := i + 1;
    }
    return true;
  }

  /** A byte upper-cases to an accepted code exactly when it is one already
      or is the lower-case letter of one. */
  lemma {:induction false} UpperAccepts(c: Char8)
    ensures IsCode(ToUpper(c)) <==>
            IsCode(c) || ('a' <= c <= 'z' && IsCode((c as int - 32) as char))
  {
    if 'A' <= c <= 'Z' {
      assert ToUpper(c) == c;
    } else if 'a' <= c <= 'z' {
      assert ToUpper(c) == (c as int - 32) as char;
    } else {
      var u := ToUpper(c);
      assert !('A' <= u <= 'Z');
    }
  }

  /** A text passes validation after upper-casing exactly when each of its
      characters is an accepted code or the lower-case letter of one. */
  lemma {:induction false} UpperAcceptsText(s: seq<Char8>)
    ensures AllCodes(Upper(s)) <==>
            forall i :: 0 <= i < |s| ==>
              IsCode(s[i]) || ('a' <= s[i] <= 'z' && IsCode((s[i] as int - 32) as char))
  {
    forall i | 0 <= i < |s|
      ensures IsCode(Upper(s)[i]) <==>
              IsCode(s[i]) || ('a' <= s[i] <= 'z' && IsCode((s[i] as int - 32) as char))
    {
      UpperAt(s, i);
      UpperAccepts(s[i]);
    }
  }

  /** Upper-casing leaves a string of accepted codes as it is. */
  lemma {:induction false} UpperKeepsCodes(s: seq<Char8>)
    requires AllCodes(s)
    ensures Upper(s) == s
  {
    if s != [] {
      var front := s[..|s| - 1];
      assert AllCodes(front);
      UpperKeepsCodes(front);
      assert IsCode(s[|s| - 1]);
      assert s == front + [s[|s| - 1]];
    }
  }

  /** A second upper-casing changes a byte exactly when the byte is not a
      letter: letters reach a capital on the first pass, while every other
      byte is moved by 32 again. */
  lemma {:induction false} IdempotentExactlyOnLetters(c: Char8)
    ensures ToUpper(ToUpper(c)) == ToUpper(c) <==> ('A' <= c <= 'Z' || 'a' <= c <= 'z')
  {
    if !('A' <= c <= 'Z' || 'a' <= c <= 'z') {
      var u := ToUpper(c);
      assert !('A' <= u <= 'Z');
    }
  }

  /** It is idempotent on every string whose upper-cased form is accepted,
      so a protein's own text is a fixed point. */
  lemma {:induction false} UpperIdempotentOnCodes(s: seq<Char8>)
    requires AllCodes(Upper(s))
    ensures Upper(Upper(s)) == Upper(s)
  {
    UpperKeepsCodes(Upper(s));
  }
}
