/** The letters and digits of ASCII, written out. */
module Alphabet {

  const UPPER := "ABCDEFGHIJKLMNOPQRSTUVWXYZ"
  const LOWER := "abcdefghijklmnopqrstuvwxyz"
  const DIGITS := "0123456789"

  lemma Place(i: nat)
    requires i < 26
    ensures |UPPER| == |LOWER| == 26 && UPPER[i] as int == 65 + i && LOWER[i] as int == 97 + i
  {}

  lemma Letters(c: char)
    ensures c in UPPER <==> 'A' <= c <= 'Z'
    ensures c in LOWER <==> 'a' <= c <= 'z'
  {
    assert forall i :: 0 <= i < 26 ==> UPPER[i] as int == 65 + i && LOWER[i] as int == 97 + i;
    if 'A' <= c <= 'Z' {
      assert UPPER[c as int - 65] == c;
    } else if 'a' <= c <= 'z' {
      assert LOWER[c as int - 97] == c;
    }
  }

  lemma Digits(c: char)
    ensures c in DIGITS <==> '0' <= c <= '9'
  {
    assert forall i :: 0 <= i < 10 ==> DIGITS[i] as int == 48 + i;
    if '0' <= c <= '9' {
      assert DIGITS[c as int - 48] == c;
    }
  }
}
