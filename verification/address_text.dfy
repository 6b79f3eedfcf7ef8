/** MAC addresses and network ids as text (src/helper.c): n two-digit hex groups joined by colons,
    n being 6 or 7. `hpav_parse_mac` and `hpav_parse_nid` check the text against a regular
    expression and then scan it with `%x:%x:...`. */
module AddressText {
  import opened CTypes

  predicate HexDigit(c: char) {
    '0' <= c <= '9' || 'a' <= c <= 'f' || 'A' <= c <= 'F'
  }

  function HexValue(c: char): (v: nat)
    requires HexDigit(c)
    ensures v < 16
  {
    if c <= '9' then c as int - '0' as int
    else if 'a' <= c then c as int - 'a' as int + 10
    else c as int - 'A' as int + 10
  }

  /** The regular expression `^([0-9A-Fa-f]{2}[:]{1}){n-1}[0-9A-Fa-f]{2}$`. */
  predicate Matches(s: string, n: nat)
    requires 0 < n
  {
    && 2 <= |s| && HexDigit(s[0]) && HexDigit(s[1])
    && if n == 1 then |s| == 2 else 3 <= |s| && s[2] == ':' && Matches(s[3..], n - 1)
  }

  /** The same, position by position. */
  predicate IsAddress(s: string, n: nat) {
    && |s| == 3 * n - 1
    && forall i :: 0 <= i < |s| ==> if i % 3 == 2 then s[i] == ':' else HexDigit(s[i])
  }

  lemma {:induction false} MatchesIffAddress(s: string, n: nat)
    requires 0 < n
    ensures Matches(s, n) <==> IsAddress(s, n)
    decreases n
  {
    if n == 1 {
    } else if 3 <= |s| {
      MatchesIffAddress(s[3..], n - 1);
      if IsAddress(s, n) {
        forall i | 0 <= i < |s[3..]| ensures if i % 3 == 2 then s[3..][i] == ':' else HexDigit(s[3..][i]) {
          assert s[3..][i] == s[i + 3];
        }
      }
      if Matches(s, n) {
        forall i | 0 <= i < |s| ensures if i % 3 == 2 then s[i] == ':' else HexDigit(s[i]) {
          if 3 <= i {
            assert s[i] == s[3..][i - 3];
          }
        }
      }
    }
  }

  /** The value of each group, by position. */
  function Decoded(s: string, n: nat): (b: seq<byte>)
    requires IsAddress(s, n)
    ensures |b| == n
  {
    seq(n, i requires 0 <= i < n => GroupValue(s, n, i))
  }

  function GroupValue(s: string, n: nat, i: nat): byte
    requires IsAddress(s, n) && i < n
  {
    assert (3 * i) % 3 == 0 && (3 * i + 1) % 3 == 1;
    16 * HexValue(s[3 * i]) + HexValue(s[3 * i + 1])
  }

  // ----- the parsers as coded -----

  /** `%x` on a run of hex digits: as many as there are, into an `unsigned int`. */
  method ScanHex(s: string, from: nat) returns (value: nat, pos: nat)
    requires from <= |s|
    ensures from <= pos <= |s| && (forall i :: from <= i < pos ==> HexDigit(s[i])) && (pos < |s| ==> !HexDigit(s[pos]))
    ensures pos == from ==> value == 0
    ensures pos == from + 2 ==> value == 16 * HexValue(s[from]) + HexValue(s[from + 1])
  {
    value, pos := 0, from;
    while pos < |s| && HexDigit(s[pos])
      invariant from <= pos <= |s| && forall i :: from <= i < pos ==> HexDigit(s[i])
      invariant pos == from ==> value == 0
      invariant pos == from + 1 ==> value == HexValue(s[from])
      invariant pos == from + 2 ==> value == 16 * HexValue(s[from]) + HexValue(s[from + 1])
    {
      value := (16 * value + HexValue(s[pos])) % 0x1_0000_0000;
      pos := pos + 1;
    }
  }

  /** `sscanf` with n times `%x`, separated by colons: the values scanned before the first mismatch. */
  method ScanGroups(s: string, n: nat) returns (values: seq<nat>)
    requires 0 < n
    ensures |values| <= n
    ensures IsAddress(s, n) ==> |values| == n && forall i :: 0 <= i < n ==> values[i] == GroupValue(s, n, i)
  {
    values := [];
    var pos := 0;
    while |values| < n
      invariant |values| <= n && pos <= |s|
      invariant IsAddress(s, n) ==> pos == (if |values| == 0 then 0 else 3 * |values| - 1)
      invariant IsAddress(s, n) ==> forall i :: 0 <= i < |values| ==> values[i] == GroupValue(s, n, i)
      decreases n - |values|
    {
      ghost var k := |values|;
      if values != [] {
        assert IsAddress(s, n) ==> (3 * k - 1) % 3 == 2;
        if pos == |s| || s[pos] != ':' {
          return;
        }
        pos := pos + 1;
      }
      if IsAddress(s, n) {
        assert (3 * k) % 3 == 0 && (3 * k + 1) % 3 == 1 && (3 * k + 2) % 3 == 2;
        assert HexDigit(s[3 * k]) && HexDigit(s[3 * k + 1]) && (3 * k + 2 < |s| ==> s[3 * k + 2] == ':');
      }
      var value, after := ScanHex(s, pos);
      if after == pos {
        return;
      }
      assert IsAddress(s, n) ==> after == 3 * k + 2;
      values := values + [value];
      pos := after;
    }
  }

  /** The scanned integers as stored in bytes; of an address, no value loses a bit. */
  function Truncated(values: seq<nat>, ghost s: string, ghost n: nat): (b: seq<byte>)
    requires IsAddress(s, n) && |values| == n && forall i :: 0 <= i < n ==> values[i] == GroupValue(s, n, i)
    ensures b == Decoded(s, n)
  {
    var b: seq<byte> := seq(|values|, i requires 0 <= i < |values| => values[i] % 0x100);
    assert b == Decoded(s, n) by {
      forall i | 0 <= i < n ensures b[i] == GroupValue(s, n, i) {
        assert values[i] % 0x100 == GroupValue(s, n, i);
      }
    }
    b
  }

  /** `hpav_parse_mac` for n = 6, `hpav_parse_nid` for n = 7. It accepts exactly the addresses, then
      stores their groups, and leaves the destination alone otherwise. */
  method Parse(dst: array<byte>, text: Option<string>, n: nat) returns (rc: int)
    requires 0 < n == dst.Length
    modifies dst
    ensures rc == EXIT_SUCCESS <==> text.Some? && IsAddress(text.value, n)
    ensures rc == EXIT_SUCCESS ==> dst[..] == Decoded(text.value, n)
    ensures rc != EXIT_SUCCESS ==> dst[..] == old(dst[..]) && rc == if text.None? then EXIT_FAILURE else -EINVAL
  {
    if text.None? {
      return EXIT_FAILURE;
    }
    var s := text.value;
    MatchesIffAddress(s, n);
    if !Matches(s, n) {
      return -EINVAL;
    }
    var values := ScanGroups(s, n);
    if |values| != n {
      return EXIT_FAILURE;
    }
    var bytes := Truncated(values, s, n);
    forall i | 0 <= i < n {
      dst[i] := bytes[i];
    }
    assert dst[..] == bytes;
    return EXIT_SUCCESS;
  }

  // ----- printing -----

  function Digit(v: nat): char
    requires v < 16
  {
    if v < 10 then '0' + v as char else 'a' + (v - 10) as char
  }

  /** `%02x:%02x:...`. */
  function Printed(b: seq<byte>): (s: string)
    requires b != []
    ensures |s| == 3 * |b| - 1
  {
    seq(3 * |b| - 1, k requires 0 <= k < 3 * |b| - 1 =>
      if k % 3 == 2 then ':' else if k % 3 == 0 then Digit(b[k / 3] / 16) else Digit(b[k / 3] % 16))
  }

  function Lower(s: string): (t: string)
    ensures |t| == |s|
  {
    seq(|s|, k requires 0 <= k < |s| => if 'A' <= s[k] <= 'F' then s[k] - 'A' + 'a' else s[k])
  }

  lemma DigitValue(v: nat)
    requires v < 16
    ensures HexDigit(Digit(v)) && HexValue(Digit(v)) == v
  {
  }

  lemma DigitOfValue(c: char)
    requires HexDigit(c)
    ensures Digit(HexValue(c)) == if 'A' <= c <= 'F' then c - 'A' + 'a' else c
  {
  }

  lemma GroupDigits(hi: nat, lo: nat)
    requires hi < 16 && lo < 16
    ensures (16 * hi + lo) / 16 == hi && (16 * hi + lo) % 16 == lo
  {
  }

  /** Parsing what was printed gives back the bytes. */
  lemma ParseOfPrinted(b: seq<byte>)
    requires b != []
    ensures IsAddress(Printed(b), |b|) && Decoded(Printed(b), |b|) == b
  {
    var s := Printed(b);
    forall k | 0 <= k < |s| ensures if k % 3 == 2 then s[k] == ':' else HexDigit(s[k]) {
      DigitValue(b[k / 3] / 16);
      DigitValue(b[k / 3] % 16);
    }
    forall i | 0 <= i < |b| ensures GroupValue(s, |b|, i) == b[i] {
      DigitValue(b[i] / 16);
      DigitValue(b[i] % 16);
      assert (3 * i) % 3 == 0 && (3 * i) / 3 == i && (3 * i + 1) % 3 == 1 && (3 * i + 1) / 3 == i;
    }
  }

  lemma PrintedAt(b: seq<byte>, i: nat)
    requires i < |b|
    ensures Printed(b)[3 * i] == Digit(b[i] / 16) && Printed(b)[3 * i + 1] == Digit(b[i] % 16)
  {
    assert (3 * i) % 3 == 0 && (3 * i) / 3 == i && (3 * i + 1) % 3 == 1 && (3 * i + 1) / 3 == i;
  }

  lemma PrintedGroup(s: string, n: nat, i: nat)
    requires IsAddress(s, n) && i < n && HexDigit(s[3 * i]) && HexDigit(s[3 * i + 1])
    ensures Printed(Decoded(s, n))[3 * i] == Digit(HexValue(s[3 * i]))
    ensures Printed(Decoded(s, n))[3 * i + 1] == Digit(HexValue(s[3 * i + 1]))
  {
    var b := Decoded(s, n);
    var hi, lo := HexValue(s[3 * i]), HexValue(s[3 * i + 1]);
    assert b[i] == GroupValue(s, n, i) == 16 * hi + lo;
    GroupDigits(hi, lo);
    assert b[i] / 16 == hi && b[i] % 16 == lo;
    PrintedAt(b, i);
  }

  lemma PrintedLetter(s: string, n: nat, k: nat)
    requires IsAddress(s, n) && k < |s| && k % 3 != 2
    ensures Printed(Decoded(s, n))[k] == Lower(s)[k]
  {
    var i := k / 3;
    var first, second := 3 * i, 3 * i + 1;
    assert first % 3 == 0 && second % 3 == 1 && (k == first || k == second) && i < n;
    assert HexDigit(s[first]) && HexDigit(s[second]);
    PrintedGroup(s, n, i);
    DigitOfValue(s[k]);
  }

  const LOWER_DIGITS := "0123456789abcdef"
  const UPPER_DIGITS := "0123456789ABCDEF"

  /** The hex digits are these, and each stands for its place. */
  lemma HexDigitsExactly(c: char)
    ensures HexDigit(c) <==> c in LOWER_DIGITS || c in UPPER_DIGITS
    ensures forall v :: 0 <= v < 16 && (c == LOWER_DIGITS[v] || c == UPPER_DIGITS[v]) ==>
              HexDigit(c) && HexValue(c) == v
  {
    if HexDigit(c) {
      var v := HexValue(c);
      assert c == LOWER_DIGITS[v] || c == UPPER_DIGITS[v];
    }
  }

  /** What is printed, digit by digit. */
  lemma PrintedExactly(b: seq<byte>, i: nat)
    requires i < |b|
    ensures Printed(b)[3 * i] == LOWER_DIGITS[b[i] / 16] && Printed(b)[3 * i + 1] == LOWER_DIGITS[b[i] % 16]
    ensures i < |b| - 1 ==> Printed(b)[3 * i + 2] == ':'
  {
    PrintedAt(b, i);
    assert (3 * i + 2) % 3 == 2;
  }

  /** Group by group: an address is two hex digits, a colon, two hex digits and so on, and each group stands
      for its number, the first digit counting sixteen times. */
  lemma GroupExactly(s: string, n: nat, i: nat, hi: nat, lo: nat)
    requires |s| == 3 * n - 1 && i < n && hi < 16 && lo < 16
    requires s[3 * i] == LOWER_DIGITS[hi] || s[3 * i] == UPPER_DIGITS[hi]
    requires s[3 * i + 1] == LOWER_DIGITS[lo] || s[3 * i + 1] == UPPER_DIGITS[lo]
    ensures IsAddress(s, n) ==> Decoded(s, n)[i] == 16 * hi + lo && (i < n - 1 ==> s[3 * i + 2] == ':')
  {
    HexDigitsExactly(s[3 * i]);
    HexDigitsExactly(s[3 * i + 1]);
    assert (3 * i) % 3 == 0 && (3 * i + 1) % 3 == 1 && (3 * i + 2) % 3 == 2;
  }

  /** Printing what was parsed gives back the text, in lower case. */
  lemma PrintedOfParse(s: string, n: nat)
    requires 0 < n && IsAddress(s, n)
    ensures Printed(Decoded(s, n)) == Lower(s)
  {
    forall k | 0 <= k < |s| ensures Printed(Decoded(s, n))[k] == Lower(s)[k] {
      if k % 3 != 2 {
        PrintedLetter(s, n, k);
      }
    }
  }
}
