/** The deterministic file name of each shard: `store_shard_` and the id in decimal,
    zero-padded to at least four digits. */
module ShardNames {

  const Prefix: string := "store_shard_"
  const Width: nat := 4

  predicate IsDigit(c: char) { '0' <= c <= '9' }

  function DigitChar(d: nat): (c: char)
    requires d < 10
    ensures IsDigit(c) && c as int - '0' as int == d
  {
    ('0' as int + d) as char
  }

  function DigitValue(c: char): nat
  {
    if IsDigit(c) then c as int - '0' as int else 0
  }

  /** The decimal representation of `n`, without leading zeros. */
  function Digits(n: nat): (r: string)
    ensures |r| >= 1
    ensures forall i :: 0 <= i < |r| ==> IsDigit(r[i])
    ensures n >= 10 ==> r[0] != '0'
    decreases n
  {
    if n < 10 then [DigitChar(n)] else Digits(n / 10) + [DigitChar(n % 10)]
  }

  function Zeros(k: nat): (z: string)
    ensures |z| == k
  {
    seq(k, _ => '0')
  }

  /** `s` with zeros in front until it is `width` characters long. */
  function ZeroPad(s: string, width: nat): (r: string)
    ensures |r| == if |s| < width then width else |s|
    ensures exists k: nat :: r == Zeros(k) + s
  {
    if |s| < width then
      // names the witness `width - |s|` for the existential in the ensures
      assert Zeros(width - |s|) + s == Zeros(width - |s|) + s;
      Zeros(width - |s|) + s
    else
      // the witness here is 0
      assert s == Zeros(0) + s;
      s
  }

  /** `get_name_format`: the formatting `'store_shard_{0:04d}'` applied to a shard id. */
  function NameFormat(id: nat): (name: string)
    ensures |name| >= |Prefix| + Width
    ensures name[..|Prefix|] == Prefix
    ensures forall i :: |Prefix| <= i < |name| ==> IsDigit(name[i])
  {
    Prefix + ZeroPad(Digits(id), Width)
  }

  /** Reads a string of decimal digits back as a number; leading zeros are allowed. */
  function ParseDecimal(s: string): nat
    decreases |s|
  {
    if s == [] then 0 else 10 * ParseDecimal(s[..|s| - 1]) + DigitValue(s[|s| - 1])
  }

  lemma {:induction false} ParseDigits(n: nat)
    ensures ParseDecimal(Digits(n)) == n
    decreases n
  {
    var d := Digits(n);
    if n < 10 {
      assert d[..|d| - 1] == [];
    } else {
      ParseDigits(n / 10);
      assert d[..|d| - 1] == Digits(n / 10);
    }
  }

  lemma {:induction false} ParseLeadingZeros(k: nat, s: string)
    ensures ParseDecimal(Zeros(k) + s) == ParseDecimal(s)
    decreases |s|, k
  {
    var t := Zeros(k) + s;
    if s == [] {
      if k > 0 {
        assert t[..|t| - 1] == Zeros(k - 1) + [];
        ParseLeadingZeros(k - 1, []);
      } else {
        assert t == [];
      }
    } else {
      assert t[..|t| - 1] == Zeros(k) + s[..|s| - 1];
      assert t[|t| - 1] == s[|s| - 1];
      ParseLeadingZeros(k, s[..|s| - 1]);
    }
  }

  /** The digits after the prefix of a shard name read back as the shard id. */
  lemma NameFormatParses(id: nat)
    ensures ParseDecimal(NameFormat(id)[|Prefix|..]) == id
  {
    var padded := ZeroPad(Digits(id), Width);
    assert NameFormat(id)[|Prefix|..] == padded;
    var k: nat :| padded == Zeros(k) + Digits(id);
    ParseLeadingZeros(k, Digits(id));
    ParseDigits(id);
  }

  /** Distinct shards never share a file name, so shard contents can be keyed by shard id. */
  lemma NameFormatInjective(a: nat, b: nat)
    requires NameFormat(a) == NameFormat(b)
    ensures a == b
  {
    NameFormatParses(a);
    NameFormatParses(b);
  }


  /** Ids below 10000 are padded to four digits. */
  lemma NameFormatPadded()
    ensures NameFormat(0) == "store_shard_0000"
    ensures NameFormat(42) == "store_shard_0042"
  {
    assert Digits(0) == ['0'] && Zeros(3) == ['0', '0', '0'];
    assert Digits(4) == ['4'] && Digits(42) == ['4', '2'] && Zeros(2) == ['0', '0'];
  }

  /** Wider ids keep all their digits: the width is a minimum, not a truncation. */
  lemma NameFormatWide()
    ensures NameFormat(12345) == "store_shard_12345"
  {
    assert Digits(1) == ['1'];
    assert Digits(12) == ['1', '2'];
    assert Digits(123) == ['1', '2', '3'];
    assert Digits(1234) == ['1', '2', '3', '4'];
    assert Digits(12345) == ['1', '2', '3', '4', '5'];
    assert ZeroPad(Digits(12345), Width) == Digits(12345);
  }
}
