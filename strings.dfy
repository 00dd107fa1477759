/**
 * The two isPrintable overloads of include/Common.h, as the predicates
 * their doc-comments state.
 *
 * Which single bytes are "nice to display in a single line of text" is
 * decided by code that is not part of this model, so the classification is
 * a parameter, `printable`, that every member takes.
 */
module Strings {

  newtype byte = x: int | 0 <= x < 0x100

  /**
   * strlen(str): the position of the first NUL of a null-terminated string.
   * The sequence str stands for the readable bytes from the pointer onwards.
   */
  function StrLen(str: seq<byte>): (n: nat)
    requires 0 in str
    ensures n < |str| && str[n] == 0
    ensures forall i :: 0 <= i < n ==> str[i] != 0
  {
    if str[0] == 0 then 0
    else
      assert 0 in str[1..] by { assert str == [str[0]] + str[1..]; }
      1 + StrLen(str[1..])
  }

  /**
   * isPrintable(str): every byte of the null-terminated string str before
   * its terminator is printable. Read byte by byte until the first NUL.
   */
  function IsPrintableString(str: seq<byte>, printable: byte -> bool): (r: bool)
    requires 0 in str
    ensures r <==> forall i :: 0 <= i < StrLen(str) ==> printable(str[i])
  {
    if str[0] == 0 then true
    else
      assert 0 in str[1..] by { assert str == [str[0]] + str[1..]; }
      printable(str[0]) && IsPrintableString(str[1..], printable)
  }

  /**
   * isPrintable(data, length): the first length bytes of data end in a NUL
   * terminator and every byte before it is printable. The sequence data
   * stands for the readable bytes from the pointer onwards.
   */
  predicate IsPrintableData(data: seq<byte>, length: nat, printable: byte -> bool): (b: bool)
    requires length <= |data|
    ensures b ==> 0 in data[..length]
  {
    && length >= 1
    && data[length - 1] == 0
    && forall i :: 0 <= i < length - 1 ==> printable(data[i])
  }

  /**
   * isPrintable(data, length) reads no byte at or past length: buffers that
   * agree on their first length bytes get the same answer.
   */
  lemma PrintableDataReadsOnlyLength(data: seq<byte>, other: seq<byte>, length: nat, printable: byte -> bool)
    requires length <= |data| && length <= |other|
    requires data[..length] == other[..length]
    ensures IsPrintableData(data, length, printable) == IsPrintableData(other, length, printable)
  {
    assert forall i :: 0 <= i < length ==> data[i] == data[..length][i] == other[i];
  }

  /**
   * isPrintable(str) reads no byte past the terminator: strings that agree up
   * to and including their first NUL get the same answer.
   */
  lemma PrintableStringReadsToTerminator(str: seq<byte>, other: seq<byte>, printable: byte -> bool)
    requires 0 in str && 0 in other
    requires StrLen(str) < |other| && str[..StrLen(str) + 1] == other[..StrLen(str) + 1]
    ensures StrLen(other) == StrLen(str)
    ensures IsPrintableString(str, printable) == IsPrintableString(other, printable)
  {
    var n := StrLen(str);
    assert forall i :: 0 <= i <= n ==> str[i] == str[..n + 1][i] == other[i];
  }

  /**
   * The two overloads agree: isPrintable(str) is isPrintable(str,
   * strlen(str) + 1).
   */
  lemma PrintableStringAsData(str: seq<byte>, printable: byte -> bool)
    requires 0 in str
    ensures StrLen(str) + 1 <= |str|
    ensures IsPrintableString(str, printable) <==> IsPrintableData(str, StrLen(str) + 1, printable)
  {
  }

  /**
   * Conversely, when NUL is never printable, data accepted by
   * isPrintable(data, length) is a null-terminated string whose length is
   * length - 1 and that isPrintable(str) accepts.
   */
  lemma PrintableDataAsString(data: seq<byte>, length: nat, printable: byte -> bool)
    requires length <= |data|
    requires !printable(0)
    requires IsPrintableData(data, length, printable)
    ensures 0 in data[..length]
    ensures StrLen(data[..length]) == length - 1
    ensures IsPrintableString(data[..length], printable)
  {
    var s := data[..length];
    assert s[length - 1] == 0;
    assert forall i :: 0 <= i < length - 1 ==> s[i] != 0;
  }

  /**
   * Worked cases: "hello\0" of length 6 is printable when its letters are;
   * "hel\x01lo\0" of length 8 is not when byte 1 is not; data whose last byte
   * is not NUL is not; no input of length 0 is.
   */
  lemma PrintableExamples(printable: byte -> bool, buf: seq<byte>)
    requires printable(104) && printable(101) && printable(108) && printable(111)
    requires !printable(1)
    ensures IsPrintableData([104, 101, 108, 108, 111, 0], 6, printable)
    ensures !IsPrintableData([104, 101, 108, 1, 108, 111, 0, 0], 8, printable)
    ensures !IsPrintableData([104, 105], 2, printable)
    ensures !IsPrintableData(buf, 0, printable)
  {
    var bad: seq<byte> := [104, 101, 108, 1, 108, 111, 0, 0];
    assert !printable(bad[3]);
  }
}
