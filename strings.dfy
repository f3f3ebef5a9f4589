/** Datas/Strings.go: a string's runes as int32 or uint16 values. A Go string
    is UTF-8 bytes that []rune decodes; here the string is given as its
    Unicode scalar values already (Dafny's char), so the decoding, and the
    U+FFFD that Go substitutes for invalid bytes, are not part of this
    model. */
module Datas {
  /** int32(r) of every rune r: the code point itself, since every code point
      fits in an int32. */
  function Runes32(s: string): (r: seq<int>)
    ensures |r| == |s|
  {
    seq(|s|, i requires 0 <= i < |s| => s[i] as int)
  }

  /** uint16(r) of every rune r: the code point truncated to its low 16
      bits. */
  function Runes16(s: string): (r: seq<int>)
    ensures |r| == |s|
  {
    seq(|s|, i requires 0 <= i < |s| => (s[i] as int) % 0x1_0000)
  }

  /** StringToUint32: one value appended per rune, in order. */
  method StringToUint32(str: string) returns (int32Slice: seq<int>)
    ensures int32Slice == Runes32(str)
  {
    int32Slice := [];
    for i := 0 to |str|
      invariant int32Slice == Runes32(str[..i])
    {
      int32Slice := int32Slice + [str[i] as int];
    }
    assert str[..|str|] == str;
  }

  /** StringToUint16: one value appended per rune, in order. */
  method StringToUint16(str: string) returns (int32Slice: seq<int>)
    ensures int32Slice == Runes16(str)
  {
    int32Slice := [];
    for i := 0 to |str|
      invariant int32Slice == Runes16(str[..i])
    {
      int32Slice := int32Slice + [(str[i] as int) % 0x1_0000];
    }
    assert str[..|str|] == str;
  }

  /** The runes of s again from its int32 values: StringToUint32 loses
      nothing. */
  function FromRunes(r: seq<int>): (s: string)
    requires forall i :: 0 <= i < |r| ==> 0 <= r[i] < 0xD800 || 0xE000 <= r[i] < 0x11_0000
    ensures |s| == |r|
  {
    seq(|r|, i requires 0 <= i < |r| => r[i] as char)
  }

  lemma RunesRoundTrip(s: string)
    ensures FromRunes(Runes32(s)) == s
  {
    var r := Runes32(s);
    assert forall i :: 0 <= i < |s| ==> FromRunes(r)[i] == s[i];
  }

  /** Every value of StringToUint32 is a code point, below 2^21 and so an
      int32; every value of StringToUint16 is a uint16. */
  lemma RuneRanges(s: string)
    ensures forall i :: 0 <= i < |s| ==> 0 <= Runes32(s)[i] < 0x11_0000
    ensures forall i :: 0 <= i < |s| ==> 0 <= Runes16(s)[i] < 0x1_0000 &&
                                         Runes16(s)[i] == Runes32(s)[i] % 0x1_0000
  {
  }

  /** The empty string gives no values. */
  lemma EmptyString()
    ensures Runes32("") == [] && Runes16("") == []
  {
  }

  /** For a string whose runes are all below 2^16 the two conversions agree
      element by element; a rune at or above 2^16 is where they differ. */
  lemma {:induction false} RunesAgree(s: string)
    ensures Runes16(s) == Runes32(s) <==> forall i :: 0 <= i < |s| ==> s[i] as int < 0x1_0000
  {
    if forall i :: 0 <= i < |s| ==> s[i] as int < 0x1_0000 {
      assert forall i :: 0 <= i < |s| ==> Runes16(s)[i] == Runes32(s)[i];
    } else {
      var i :| 0 <= i < |s| && s[i] as int >= 0x1_0000;
      assert Runes16(s)[i] != Runes32(s)[i];
    }
  }

  /** Both conversions work rune by rune: the values of a concatenation are
      the values of its parts. */
  lemma RunesAppend(s: string, t: string)
    ensures Runes32(s + t) == Runes32(s) + Runes32(t)
    ensures Runes16(s + t) == Runes16(s) + Runes16(t)
  {
    assert forall i :: 0 <= i < |s + t| ==> Runes32(s + t)[i] == (Runes32(s) + Runes32(t))[i];
    assert forall i :: 0 <= i < |s + t| ==> Runes16(s + t)[i] == (Runes16(s) + Runes16(t))[i];
  }
}
