/**
  Byte classification of the word counter.

  The file is read as Java `byte`s, which are signed: a byte of the file is
  an integer in -128..127.  A byte is a letter (`isValidChar`), an avoided
  byte (`isCharToAvoid`, the apostrophe) or a separator (anything else).
 */
module Bytes {

  /** A Java `byte`. */
  type JByte = b: int | -128 <= b < 128

  /** The apostrophe, the one entry of the `TO_AVOID` table. */
  const Apostrophe: JByte := '\'' as int

  /** The `TO_AVOID` table: bytes that are not letters but do not separate words. */
  const ToAvoid: seq<JByte> := [Apostrophe]

  /** `isValidChar`: the byte is an ASCII letter. */
  function IsValidChar(b: JByte): (r: bool)
    ensures r <==> ('A' as int <= b <= 'Z' as int) || ('a' as int <= b <= 'z' as int)
  {
    (b > 64 && b < 91) || (b > 96 && b < 123)
  }

  /** `isCharToAvoid`: the byte equals one of the `TO_AVOID` characters. */
  function IsCharToAvoid(b: JByte): (r: bool)
    ensures r <==> b == '\'' as int
  {
    b in ToAvoid
  }

  /** The three disjoint classes a byte falls into. */
  datatype CharClass = Letter | Skip | Separator

  function Classify(b: JByte): (c: CharClass)
    ensures c == Letter <==> IsValidChar(b)
    ensures c == Skip <==> IsCharToAvoid(b)
    ensures c == Separator <==> !IsValidChar(b) && !IsCharToAvoid(b)
  {
    if IsValidChar(b) then Letter
    else if IsCharToAvoid(b) then Skip
    else Separator
  }

  /** No byte is both a letter and avoided, and no negative byte is either. */
  lemma ClassesDisjoint(b: JByte)
    ensures !(IsValidChar(b) && IsCharToAvoid(b))
    ensures b < 0 ==> !IsValidChar(b) && !IsCharToAvoid(b)
  {
  }

  /** The bytes of an ASCII string, for writing concrete files. */
  function Ascii(s: string): (bs: seq<JByte>)
    requires forall i :: 0 <= i < |s| ==> s[i] as int < 128
    ensures |bs| == |s|
    ensures forall i :: 0 <= i < |s| ==> bs[i] == s[i] as int
  {
    if |s| == 0 then [] else [s[0] as int] + Ascii(s[1..])
  }
}
