/** The pure helper of the utility namespace: the value of a decimal digit. */
module Utils {
  import opened Text

  /** `cto_int(c)`: the digit's value for '0'..'9', and -1 for any other
      character. */
  function CtoInt(c: char): (r: int)
    ensures -1 <= r <= 9
    ensures r >= 0 <==> IsDigit(c)
    ensures r >= 0 ==> DigitChar(r) == c
    ensures r < 0 ==> r == -1
  {
    if '0' <= c <= '9' then c as int - '0' as int else -1
  }

  /** Every digit value comes back from the character that spells it. */
  lemma CtoIntOfDigitChar(d: nat)
    requires d < 10
    ensures CtoInt(DigitChar(d)) == d
  {
  }
}
