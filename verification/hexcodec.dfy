/** Single-digit hexadecimal encoding used by the console input and the
    row/column labels of the renderer. */
module HexCodec {
  import opened Limits

  /** The sixteen digits `ToHex` can produce, indexed by their value. */
  const Digits: string := "0123456789abcdef"

  /** `ToHex`: the digit of `i % 16`. Because `i % 16` always lies in
      `[0, 16)`, the index is in range, which is why the `default` arm of the
      source's switch can never be taken. */
  function ToHex(i: uint32): (c: char)
    ensures IsHexDigit(c) && ToLower(c) == c
  {
    Digits[i % 16]
  }

  /** `std::tolower` in the "C" locale: only `A`-`Z` are changed. */
  function ToLower(c: char): char
  {
    if 'A' <= c <= 'Z' then (c as int - 'A' as int + 'a' as int) as char else c
  }

  /** `FromHex`: the value of a hex digit of either case, `UINT_MAX` otherwise. */
  function FromHex(c: char): (v: uint32)
    ensures v < 16 || v == UINT_MAX
    ensures IsHexDigit(c) <==> v < 16
  {
    var l := ToLower(c);
    if '0' <= l <= '9' then l as int - '0' as int
    else if 'a' <= l <= 'f' then l as int - 'a' as int + 10
    else UINT_MAX
  }

  /** Characters `FromHex` accepts, stated without reference to its body. */
  predicate IsHexDigit(c: char)
  {
    ('0' <= c <= '9') || ('a' <= c <= 'f') || ('A' <= c <= 'F')
  }

  /** The digit table in closed form. */
  lemma DigitAt(d: nat)
    requires d < 16
    ensures Digits[d] == if d < 10 then ('0' as int + d) as char else ('a' as int + d - 10) as char
  {
    assert Digits == ['0', '1', '2', '3', '4', '5', '6', '7', '8', '9', 'a', 'b', 'c', 'd', 'e', 'f'];
  }

  /** Decoding an encoded value gives back the value modulo 16. */
  lemma DecodeEncode(i: uint32)
    ensures FromHex(ToHex(i)) == i % 16
    ensures IsHexDigit(ToHex(i)) && ToLower(ToHex(i)) == ToHex(i)
  {
    DigitAt(i % 16);
  }

  /** Encoding a decoded digit gives back the digit, lower-cased; anything
      that is not a digit of either case decodes to the sentinel. */
  lemma EncodeDecode(c: char)
    ensures IsHexDigit(c) ==> FromHex(c) < 16 && ToHex(FromHex(c)) == ToLower(c)
    ensures !IsHexDigit(c) <==> FromHex(c) == UINT_MAX
  {
    var l := ToLower(c);
    if IsHexDigit(c) {
      assert '0' <= l <= '9' || 'a' <= l <= 'f';
      DigitAt(FromHex(c));
    } else {
      assert !('0' <= l <= '9') && !('a' <= l <= 'f');
    }
  }

  /** `FromHex` ignores case. */
  lemma CaseInsensitive(c: char)
    requires 'a' <= c <= 'f'
    ensures FromHex((c as int - 'a' as int + 'A' as int) as char) == FromHex(c) == c as int - 'a' as int + 10
  {
  }
}
