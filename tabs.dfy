/**
 * The labels of the per-address tabs: "IP: " followed by the address with
 * surrounding whitespace removed, or "IP <n>" (n the 1-based tab number)
 * when nothing but whitespace was entered.
 */
module Tabs {

  /** The code points Python's `str.isspace()` accepts, one by one. */
  const WhitespaceCodePoints: set<int> := {
    9, 10, 11, 12, 13, 28, 29, 30, 31, 32, 133, 160, 5760,
    8192, 8193, 8194, 8195, 8196, 8197, 8198, 8199, 8200, 8201, 8202,
    8232, 8233, 8239, 8287, 12288
  }

  /** Python's `str.isspace()` for one character. */
  predicate IsSpace(c: char)
  {
    || '\U{9}' <= c <= '\U{D}'
    || '\U{1C}' <= c <= '\U{20}'
    || c == '\U{85}' || c == '\U{A0}' || c == '\U{1680}'
    || '\U{2000}' <= c <= '\U{200A}'
    || c == '\U{2028}' || c == '\U{2029}' || c == '\U{202F}' || c == '\U{205F}' || c == '\U{3000}'
  }

  /** The ranges above are exactly the listed code points. */
  lemma IsSpaceIff(c: char)
    ensures IsSpace(c) <==> c as int in WhitespaceCodePoints
  {
  }

  /** Drops leading whitespace. */
  function TrimStart(s: string): (r: string)
    ensures |r| <= |s| && r == s[|s| - |r|..]
    ensures forall k :: 0 <= k < |s| - |r| ==> IsSpace(s[k])
    ensures r == [] || !IsSpace(r[0])
  {
    if |s| > 0 && IsSpace(s[0]) then TrimStart(s[1..]) else s
  }

  /** Drops trailing whitespace. */
  function TrimEnd(s: string): (r: string)
    ensures |r| <= |s| && r == s[..|r|]
    ensures forall k :: |r| <= k < |s| ==> IsSpace(s[k])
    ensures r == [] || !IsSpace(r[|r| - 1])
  {
    if |s| > 0 && IsSpace(s[|s| - 1]) then TrimEnd(s[..|s| - 1]) else s
  }

  /**
   * Python's `str.strip()`: the stretch of `s` left after removing the
   * whitespace at both ends. Only whitespace is removed, and the result
   * neither starts nor ends with whitespace.
   */
  function Strip(s: string): (r: string)
    ensures exists i, j ::
              && 0 <= i <= j <= |s| && r == s[i..j]
              && (forall k :: 0 <= k < i ==> IsSpace(s[k]))
              && (forall k :: j <= k < |s| ==> IsSpace(s[k]))
    ensures r == [] || (!IsSpace(r[0]) && !IsSpace(r[|r| - 1]))
  {
    var t := TrimStart(s);
    var r := TrimEnd(t);
    var i := |s| - |t|;
    assert r == s[i..i + |r|];
    r
  }

  /** Stripping twice is stripping once. */
  lemma StripIdempotent(s: string)
    ensures Strip(Strip(s)) == Strip(s)
  {
  }

  /** An address strips to nothing exactly when it is all whitespace. */
  lemma StripEmptyIff(s: string)
    ensures Strip(s) == [] <==> forall k :: 0 <= k < |s| ==> IsSpace(s[k])
  {
  }

  /** The decimal digit for `d`. */
  function Digit(d: nat): char
    requires d < 10
  {
    "0123456789"[d]
  }

  /** Python's `str(n)` for a natural number: its decimal digits, most significant first. */
  function NatToString(n: nat): (r: string)
    ensures |r| > 0
    ensures forall k :: 0 <= k < |r| ==> '0' <= r[k] <= '9'
    ensures n > 0 ==> r[0] != '0'
    ensures n == 0 ==> r == "0"
    decreases n
  {
    if n < 10 then [Digit(n)]
    else
      var head := NatToString(n / 10);
      assert (head + [Digit(n % 10)])[0] == head[0];
      head + [Digit(n % 10)]
  }

  /** The number a string of decimal digits denotes. */
  function DecimalValue(s: string): nat
    requires forall k :: 0 <= k < |s| ==> '0' <= s[k] <= '9'
  {
    if s == [] then 0
    else 10 * DecimalValue(s[..|s| - 1]) + (s[|s| - 1] - '0') as nat
  }

  /** Reading back the decimal form of `n` gives `n`. */
  lemma {:induction false} DecimalRoundTrip(n: nat)
    ensures DecimalValue(NatToString(n)) == n
    decreases n
  {
    var r := NatToString(n);
    if n >= 10 {
      DecimalRoundTrip(n / 10);
      assert r[..|r| - 1] == NatToString(n / 10);
    }
  }

  /** A digit character is the digit of its own value. */
  lemma DigitOfValue(c: char)
    requires '0' <= c <= '9'
    ensures Digit((c - '0') as nat) == c
  {
    var d := (c - '0') as int;
    assert "0123456789"[d] == ('0' as int + d) as char;
  }

  /** A string of digits that does not start with `0` denotes a positive number. */
  lemma {:induction false} LeadingDigitPositive(s: string)
    requires |s| > 0 && s[0] != '0'
    requires forall k :: 0 <= k < |s| ==> '0' <= s[k] <= '9'
    ensures DecimalValue(s) > 0
    decreases |s|
  {
    if |s| > 1 {
      var p := s[..|s| - 1];
      assert p[0] == s[0];
      LeadingDigitPositive(p);
    }
  }

  /**
   * The decimal form is canonical: any string of digits without a leading
   * zero (other than "0" itself) is the decimal form of the number it denotes.
   */
  lemma {:induction false} CanonicalDecimal(s: string)
    requires |s| > 0 && (|s| > 1 ==> s[0] != '0')
    requires forall k :: 0 <= k < |s| ==> '0' <= s[k] <= '9'
    ensures NatToString(DecimalValue(s)) == s
    decreases |s|
  {
    var last := s[|s| - 1];
    DigitOfValue(last);
    if |s| == 1 {
      assert DecimalValue(s) == 10 * DecimalValue([]) + (last - '0') as nat;
    } else {
      var p := s[..|s| - 1];
      assert p[0] == s[0];
      LeadingDigitPositive(p);
      CanonicalDecimal(p);
      var n := DecimalValue(s);
      assert n / 10 == DecimalValue(p) && n % 10 == (last - '0') as nat;
      assert s == p + [last];
    }
  }

  /** Different numbers have different decimal forms. */
  lemma NatToStringInjective(a: nat, b: nat)
    requires NatToString(a) == NatToString(b)
    ensures a == b
  {
    DecimalRoundTrip(a);
    DecimalRoundTrip(b);
  }

  /**
   * The label of tab `i` (0-based) for the entered address `ip`: "IP: " and
   * the stripped address, or "IP " and the 1-based tab number in decimal
   * when the address is blank.
   */
  function TabName(i: nat, ip: string): (r: string)
    ensures |r| >= 4
    ensures Strip(ip) != [] ==> r[..4] == "IP: " && r[4..] == Strip(ip)
    ensures Strip(ip) == [] ==>
      && r[..3] == "IP " && r[3..] == NatToString(i + 1)
      && DecimalValue(r[3..]) == i + 1
  {
    var address := Strip(ip);
    DecimalRoundTrip(i + 1);
    if address != [] then "IP: " + address else "IP " + NatToString(i + 1)
  }

  /**
   * One label per entered address, in order: label i is "IP: " and the
   * stripped address i, or "IP " and i + 1 when address i is blank; every
   * label starts with "IP".
   */
  function TabNames(ips: seq<string>): (r: seq<string>)
    ensures |r| == |ips|
    ensures forall i :: 0 <= i < |ips| ==>
      r[i] == if Strip(ips[i]) != [] then "IP: " + Strip(ips[i]) else "IP " + NatToString(i + 1)
    ensures forall i :: 0 <= i < |r| ==> |r[i]| >= 4 && r[i][..2] == "IP"
  {
    seq(|ips|, i requires 0 <= i < |ips| => TabName(i, ips[i]))
  }

  /** Labels that carry tab numbers differ when the numbers do. */
  lemma NumberLabelsDiffer(a: nat, b: nat)
    requires a != b
    ensures "IP " + NatToString(a) != "IP " + NatToString(b)
  {
    var x, y := "IP " + NatToString(a), "IP " + NatToString(b);
    if x == y {
      assert NatToString(a) == x[3..] == y[3..] == NatToString(b);
      NatToStringInjective(a, b);
    }
  }

  /** An address label never equals a number label: they differ in their third character. */
  lemma AddressLabelIsNotNumberLabel(address: string, m: nat)
    ensures "IP: " + address != "IP " + NatToString(m)
  {
    assert ("IP: " + address)[2] != ("IP " + NatToString(m))[2];
  }

  /** Two address labels are equal exactly when the addresses are. */
  lemma AddressLabelsEqualIff(a: string, b: string)
    ensures "IP: " + a == "IP: " + b <==> a == b
  {
    if "IP: " + a == "IP: " + b {
      assert a == ("IP: " + a)[4..] == ("IP: " + b)[4..] == b;
    }
  }

  /**
   * Two tabs get the same label exactly when their addresses strip to the
   * same non-empty text: a blank address's label carries its own tab number
   * and never equals an address label.
   */
  lemma TabNamesCollideIff(ips: seq<string>, i: nat, j: nat)
    requires i < j < |ips|
    ensures TabNames(ips)[i] == TabNames(ips)[j] <==>
      Strip(ips[i]) != [] && Strip(ips[i]) == Strip(ips[j])
  {
    var x, y := Strip(ips[i]), Strip(ips[j]);
    assert TabNames(ips)[i] == TabName(i, ips[i]) && TabNames(ips)[j] == TabName(j, ips[j]);
    if x == [] && y == [] {
      NumberLabelsDiffer(i + 1, j + 1);
    } else if x == [] {
      AddressLabelIsNotNumberLabel(y, i + 1);
    } else if y == [] {
      AddressLabelIsNotNumberLabel(x, j + 1);
    } else {
      AddressLabelsEqualIff(x, y);
    }
  }
}
