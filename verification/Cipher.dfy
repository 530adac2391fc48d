/** The substitution cipher of the translate devices, in the version of
    Aufgabe4_final and in the earlier one of Aufgabe4/vorlauf. */
module Cipher {
  import opened Bytes

  const LETTERS: nat := 52
  const LOWER_A: byte := 97
  const UPPER_A: byte := 65

  predicate IsLower(c: byte) { 97 <= c <= 122 }

  predicate IsUpper(c: byte) { 65 <= c <= 90 }

  predicate IsLetter(c: byte) { IsLower(c) || IsUpper(c) }

  /** A translate_subst parameter of the documented length; a C string has no NUL inside. */
  predicate IsSubst(subst: seq<byte>) {
    |subst| == LETTERS && forall i :: 0 <= i < |subst| ==> subst[i] != 0
  }

  /** strchr: the first position of c; the terminator counts as part of the string. */
  function StrChr(s: seq<byte>, c: byte): (i: int)
    ensures -1 <= i <= |s|
    ensures 0 <= i < |s| ==> s[i] == c
    ensures forall j :: 0 <= j < |s| && (i < 0 || j < i) ==> s[j] != c
    ensures i == |s| ==> c == 0
    ensures i == -1 ==> c != 0
  {
    if s == [] then if c == 0 then 0 else -1
    else if s[0] == c then 0
    else
      var i := StrChr(s[1..], c);
      assert forall j :: 1 <= j < |s| ==> s[j] == s[1..][j - 1];
      if i < 0 then -1 else i + 1
  }

  // ----- Aufgabe4_final -----

  function EncodeIndexFromChar(subst: seq<byte>, c: byte): int {
    if IsUpper(c) then c as int - UPPER_A as int + |subst| / 2
    else if IsLower(c) then c as int - LOWER_A as int
    else -1
  }

  function DecodeFromIndex(subst: seq<byte>, index: nat): byte
    requires IsSubst(subst) && index <= |subst|
  {
    if index < |subst| / 2 then (LOWER_A as int + index) as byte
    else (UPPER_A as int + (index - |subst| / 2)) as byte
  }

  function EncodeChar(subst: seq<byte>, c: byte): byte
    requires IsSubst(subst)
  {
    var index := EncodeIndexFromChar(subst, c);
    if index != -1 then subst[index] else c
  }

  function DecodeChar(subst: seq<byte>, c: byte): byte
    requires IsSubst(subst)
  {
    var index := StrChr(subst, c);
    if index != -1 then DecodeFromIndex(subst, index) else c
  }

  // ----- Aufgabe4/vorlauf -----

  function GetEncodedCharIndex(c: byte): int {
    if IsUpper(c) then c as int - 39
    else if IsLower(c) then c as int - 97
    else -1
  }

  function Encode(subst: seq<byte>, c: byte): byte {
    var index := GetEncodedCharIndex(c);
    if 0 <= index < |subst| then subst[index] else c
  }

  function Decode(subst: seq<byte>, c: byte): byte
    requires IsSubst(subst)
  {
    var index := StrChr(subst, c);
    if index == -1 then c
    else if 97 + index > 122 then (39 + index) as byte
    else (97 + index) as byte
  }

  // ----- what the cipher is for -----

  ghost predicate DistinctLetters(subst: seq<byte>) {
    && (forall i :: 0 <= i < |subst| ==> IsLetter(subst[i]))
    && (forall i, j :: 0 <= i < j < |subst| ==> subst[i] != subst[j])
  }

  /** r is what the parameter makes of c on the way in: the i-th of a..z becomes the character at
      position i, the i-th of A..Z the one at position 26 + i, everything else stays. */
  ghost predicate Encodes(subst: seq<byte>, c: byte, r: byte)
    requires |subst| == LETTERS == 52
  {
    && (forall i :: 0 <= i < 26 && c as int == 97 + i ==> r == subst[i])
    && (forall i :: 26 <= i < 52 && c as int == 65 + (i - 26) ==> r == subst[i])
    && (!(97 <= c <= 122) && !(65 <= c <= 90) ==> r == c)
  }

  /** r is what it makes of c on the way out: a character first found at position i becomes the i-th
      of a..zA..Z, NUL becomes '[', everything else stays. */
  ghost predicate Decodes(subst: seq<byte>, c: byte, r: byte)
    requires |subst| == LETTERS == 52
  {
    && (forall i :: 0 <= i < 52 && subst[i] == c && (forall j :: 0 <= j < i ==> subst[j] != c) ==>
          r as int == if i < 26 then 97 + i else 65 + (i - 26))
    && (c == 0 ==> r == 91)
    && (c != 0 && c !in subst ==> r == c)
  }

  lemma EncodesByPosition(subst: seq<byte>, c: byte)
    requires IsSubst(subst)
    ensures Encodes(subst, c, EncodeChar(subst, c))
  {
  }

  lemma DecodesByPosition(subst: seq<byte>, c: byte)
    requires IsSubst(subst)
    ensures Decodes(subst, c, DecodeChar(subst, c))
  {
    assert c in subst <==> 0 <= StrChr(subst, c) < 52;
  }

  /** Nothing but the positions in the parameter decides what the two functions are. */
  lemma PositionsDecide(subst: seq<byte>, c: byte, r: byte)
    requires IsSubst(subst)
    ensures Encodes(subst, c, r) <==> r == EncodeChar(subst, c)
    ensures Decodes(subst, c, r) <==> r == DecodeChar(subst, c)
  {
    EncodesByPosition(subst, c);
    DecodesByPosition(subst, c);
    if 97 <= c <= 122 {
      var i := c as int - 97;
      assert c as int == 97 + i;
    } else if 65 <= c <= 90 {
      var i := c as int - 65 + 26;
      assert c as int == 65 + (i - 26) && subst[i] == EncodeChar(subst, c);
    }
    var found := StrChr(subst, c);
    assert c in subst <==> 0 <= found < 52;
    if 0 <= found < 52 {
      assert subst[found] == c && forall j :: 0 <= j < found ==> subst[j] != c;
    }
  }

  /** Both versions are the same function of the byte, for every parameter of the right length. */
  lemma VersionsAgree(subst: seq<byte>, c: byte)
    requires IsSubst(subst)
    ensures Encode(subst, c) == EncodeChar(subst, c)
    ensures Decode(subst, c) == DecodeChar(subst, c)
  {
  }

  /** The letter at position i of the standard alphabet a..zA..Z. */
  function LetterAt(i: nat): (c: byte)
    requires i < LETTERS
    ensures IsLetter(c) && GetEncodedCharIndex(c) == i
  {
    if i < 26 then (97 + i) as byte else (39 + i) as byte
  }

  /** With 52 distinct letters exactly NUL is lost: strchr also finds the terminator, so that a NUL,
      which is never encoded, is decoded to '['. */
  lemma RoundTrip(subst: seq<byte>, c: byte)
    requires IsSubst(subst) && DistinctLetters(subst)
    ensures DecodeChar(subst, EncodeChar(subst, c)) == c <==> c != 0
    ensures EncodeChar(subst, c) != 0 <==> c != 0
  {
    var e := EncodeChar(subst, c);
    var found := StrChr(subst, e);
    if c == 0 {
      NulIsNotRestored(subst);
    } else if IsLetter(c) {
      var index := EncodeIndexFromChar(subst, c);
      assert subst[index] == e;
      assert found == index;
    } else {
      assert found == -1;
    }
  }

  /** Two positions with the same byte, or a byte that is no letter, break the round trip. */
  lemma BrokenTrip(subst: seq<byte>)
    requires IsSubst(subst) && !DistinctLetters(subst)
    ensures exists c: byte :: c != 0 && DecodeChar(subst, EncodeChar(subst, c)) != c
  {
    if i :| 0 <= i < |subst| && !IsLetter(subst[i]) {
      // the byte itself is not encoded, but decoded to a letter
      var c := subst[i];
      var found := StrChr(subst, c);
      assert EncodeChar(subst, c) == c && 0 <= found < |subst|;
      assert IsLetter(DecodeChar(subst, c));
    } else {
      var i, j :| 0 <= i < j < |subst| && subst[i] == subst[j];
      var c := LetterAt(j);
      var e := EncodeChar(subst, c);
      assert e == subst[j];
      var found := StrChr(subst, e);
      assert found <= i;
      assert DecodeChar(subst, e) == LetterAt(found);
      assert GetEncodedCharIndex(LetterAt(found)) != GetEncodedCharIndex(c);
    }
  }

  /** Decoding undoes encoding on all non-NUL bytes exactly for 52 distinct letters. */
  lemma RoundTripIff(subst: seq<byte>)
    requires IsSubst(subst)
    ensures (forall c: byte :: c != 0 ==> DecodeChar(subst, EncodeChar(subst, c)) == c) <==> DistinctLetters(subst)
  {
    if DistinctLetters(subst) {
      forall c: byte | c != 0 ensures DecodeChar(subst, EncodeChar(subst, c)) == c {
        RoundTrip(subst, c);
      }
    } else {
      BrokenTrip(subst);
    }
  }

  /** NUL is never encoded, but strchr finds it at the terminator: it comes back as '['. */
  lemma NulIsNotRestored(subst: seq<byte>)
    requires IsSubst(subst)
    ensures EncodeChar(subst, 0) == 0 && DecodeChar(subst, 0) == 91
  {
    assert StrChr(subst, 0) == |subst|;
  }
}
