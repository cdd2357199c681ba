/** Public keys as the service accepts them: 64 hexadecimal digits. */
module PublicKeys {
  predicate HexDigit(c: char) {
    '0' <= c <= '9' || 'a' <= c <= 'f' || 'A' <= c <= 'F'
  }

  predicate ValidPubkey(pk: string) {
    |pk| == 64 && forall i | 0 <= i < |pk| :: HexDigit(pk[i])
  }

  lemma HexDigits(c: char)
    ensures HexDigit(c) <==> c in "0123456789abcdefABCDEF"
  {
    var digits := "0123456789abcdefABCDEF";
    assert |digits| == 22;
    if '0' <= c <= '9' {
      assert digits[c as int - '0' as int] == c;
    } else if 'a' <= c <= 'f' {
      assert digits[10 + c as int - 'a' as int] == c;
    } else if 'A' <= c <= 'F' {
      assert digits[16 + c as int - 'A' as int] == c;
    }
  }

  /** What a public key looks like, digit by digit. */
  ghost predicate HexKey(pk: string) {
    |pk| == 64 && forall i | 0 <= i < 64 :: pk[i] in "0123456789abcdefABCDEF"
  }

  lemma ValidByDigits(pk: string)
    ensures ValidPubkey(pk) <==> HexKey(pk)
  {
    hide HexDigit;
    forall i | 0 <= i < |pk| ensures HexDigit(pk[i]) <==> pk[i] in "0123456789abcdefABCDEF" {
      HexDigits(pk[i]);
    }
  }

  /** ASCII lower case. */
  function Lower(c: char): char {
    if 'A' <= c <= 'Z' then (c as int + 32) as char else c
  }

  function Lowered(s: string): (t: string)
    ensures |t| == |s| && forall i | 0 <= i < |s| :: t[i] == Lower(s[i])
  {
    seq(|s|, i requires 0 <= i < |s| => Lower(s[i]))
  }
}
