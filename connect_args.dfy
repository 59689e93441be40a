/**
 * The `connect=<host>[:<port>]` command-line argument of
 * Multiplayer.HandleCommandLine: the argument is split on ':' the way
 * .NET's `String.Split(char)` does, the host is the first part, and the
 * port is replaced by `int.TryParse` of the second part only when there
 * are exactly two parts.
 */
module ConnectArgs {
  import opened Wrappers

  const Int32Min: int := -0x8000_0000
  const Int32Max: int := 0x7fff_ffff

  /** The host used by the (unreachable) branch for an empty split. */
  const Loopback: string := "127.0.0.1"

  // ---------------------------------------------------------------------
  // String.Split(char)
  // ---------------------------------------------------------------------

  /** Number of occurrences of `c` in `s`. */
  function Count(s: string, c: char): nat {
    if s == [] then 0 else (if s[0] == c then 1 else 0) + Count(s[1..], c)
  }

  /**
   * The parts of `s` between occurrences of `sep`, empty parts included,
   * as `String.Split` returns them; never an empty array.
   */
  function Split(s: string, sep: char): (parts: seq<string>)
    ensures |parts| >= 1
  {
    if s == [] then [[]]
    else
      var rest := Split(s[1..], sep);
      if s[0] == sep then [[]] + rest
      else [[s[0]] + rest[0]] + rest[1..]
  }

  /** The parts joined back with `sep` in between. */
  function Join(parts: seq<string>, sep: char): string
    requires |parts| >= 1
  {
    if |parts| == 1 then parts[0] else parts[0] + [sep] + Join(parts[1..], sep)
  }

  /** There is one more part than there are separators. */
  lemma {:induction false} SplitLength(s: string, sep: char)
    ensures |Split(s, sep)| == Count(s, sep) + 1
  {
    if s != [] { SplitLength(s[1..], sep); }
  }

  /** No part contains the separator. */
  lemma {:induction false} SplitPartsFree(s: string, sep: char)
    ensures forall i :: 0 <= i < |Split(s, sep)| ==> sep !in Split(s, sep)[i]
  {
    if s != [] { SplitPartsFree(s[1..], sep); }
  }

  /** Joining the parts gives back the original string. */
  lemma {:induction false} JoinSplit(s: string, sep: char)
    ensures Join(Split(s, sep), sep) == s
  {
    if s != [] {
      var rest := Split(s[1..], sep);
      JoinSplit(s[1..], sep);
      if s[0] != sep && |rest| > 1 {
        assert Split(s, sep)[1..] == rest[1..];
      }
    }
  }

  /**
   * The first part is the text before the first separator: a prefix of
   * `s` free of `sep`, followed in `s` by `sep` or by nothing.
   */
  lemma {:induction false} SplitHead(s: string, sep: char)
    ensures Split(s, sep)[0] <= s
    ensures sep !in Split(s, sep)[0]
    ensures |Split(s, sep)[0]| == |s| || s[|Split(s, sep)[0]|] == sep
  {
    if s != [] { SplitHead(s[1..], sep); }
  }

  /** Splitting a string free of `sep`, a separator, and another free string. */
  lemma {:induction false} SplitTwo(a: string, sep: char, b: string)
    requires sep !in a && sep !in b
    ensures Split(a + [sep] + b, sep) == [a, b]
  {
    if a == [] {
      assert a + [sep] + b == [sep] + b;
      assert ([sep] + b)[1..] == b;
      SplitOne(b, sep);
    } else {
      assert (a + [sep] + b)[1..] == a[1..] + [sep] + b;
      SplitTwo(a[1..], sep, b);
      assert [a[0]] + a[1..] == a;
    }
  }

  /** A string free of `sep` splits into itself alone. */
  lemma {:induction false} SplitOne(s: string, sep: char)
    requires sep !in s
    ensures Split(s, sep) == [s]
  {
    if s != [] {
      SplitOne(s[1..], sep);
      assert [s[0]] + s[1..] == s;
    }
  }

  // ---------------------------------------------------------------------
  // int.TryParse(string, out int) with NumberStyles.Integer
  // ---------------------------------------------------------------------

  /** The white space NumberStyles.AllowLeadingWhite and AllowTrailingWhite accept. */
  predicate IsNumberWhite(c: char) {
    c == ' ' || '\t' <= c <= '\r'
  }

  predicate AllNumberWhite(s: string) {
    forall i :: 0 <= i < |s| ==> IsNumberWhite(s[i])
  }

  predicate IsDigit(c: char) {
    '0' <= c <= '9'
  }

  predicate AllDigits(s: string) {
    forall i :: 0 <= i < |s| ==> IsDigit(s[i])
  }

  /** The number of white-space characters `s` starts with. */
  function LeadingWhite(s: string): (k: nat)
    ensures k <= |s|
    ensures forall i :: 0 <= i < k ==> IsNumberWhite(s[i])
    ensures k < |s| ==> !IsNumberWhite(s[k])
  {
    if s != [] && IsNumberWhite(s[0]) then 1 + LeadingWhite(s[1..]) else 0
  }

  /** The number of white-space characters `s` ends with. */
  function TrailingWhite(s: string): (k: nat)
    ensures k <= |s|
    ensures forall i :: |s| - k <= i < |s| ==> IsNumberWhite(s[i])
    ensures k < |s| ==> !IsNumberWhite(s[|s| - 1 - k])
  {
    if s != [] && IsNumberWhite(s[|s| - 1]) then 1 + TrailingWhite(s[..|s| - 1]) else 0
  }

  /** The value of a string of decimal digits, most significant first. */
  function DigitsValue(ds: string): nat
    requires AllDigits(ds)
  {
    if ds == [] then 0
    else
      var last := ds[|ds| - 1];
      assert IsDigit(last);
      10 * DigitsValue(ds[..|ds| - 1]) + (last as int - '0' as int)
  }

  /** Leading and trailing number white space removed. */
  function Trim(s: string): (r: string)
    ensures r == [] || (!IsNumberWhite(r[0]) && !IsNumberWhite(r[|r| - 1]))
  {
    var t := s[LeadingWhite(s)..];
    t[..|t| - TrailingWhite(t)]
  }

  /** The length of the sign `t` starts with: 1 for '+' or '-', else 0. */
  function SignLength(t: string): (k: nat)
    ensures k <= |t|
  {
    if t != [] && (t[0] == '-' || t[0] == '+') then 1 else 0
  }

  /** An optional sign followed by at least one digit, within 32 bits. */
  function ParseSigned(t: string): (r: Option<int>)
    ensures r.Some? ==> Int32Min <= r.value <= Int32Max
  {
    var negative := t != [] && t[0] == '-';
    var body := t[SignLength(t)..];
    if body == [] || !AllDigits(body) then None
    else
      var magnitude: int := DigitsValue(body);
      var v := if negative then -magnitude else magnitude;
      if Int32Min <= v <= Int32Max then Some(v) else None
  }

  /**
   * `int.TryParse` with NumberStyles.Integer: optional white space, an
   * optional sign and at least one digit, whose value fits in 32 bits;
   * anything else fails.
   */
  function TryParseInt(s: string): (r: Option<int>)
    ensures r.Some? ==> Int32Min <= r.value <= Int32Max
  {
    ParseSigned(Trim(s))
  }

  /** `n` in decimal, without leading zeros. */
  function NatToDigits(n: nat): (ds: string)
    ensures ds != [] && AllDigits(ds)
  {
    var d := ['0' + (n % 10) as char];
    if n < 10 then d else NatToDigits(n / 10) + d
  }

  /** `n` in decimal, with a leading '-' when negative (`int.ToString()`). */
  function IntToString(n: int): string {
    if n < 0 then "-" + NatToDigits(-n) else NatToDigits(n)
  }

  lemma {:induction false} DigitsValueOfNat(n: nat)
    ensures DigitsValue(NatToDigits(n)) == n
  {
    var ds := NatToDigits(n);
    if n >= 10 {
      DigitsValueOfNat(n / 10);
      assert ds[..|ds| - 1] == NatToDigits(n / 10);
    }
  }

  /** Text that neither starts nor ends with white space is left unchanged by trimming. */
  lemma TrimUnpadded(s: string)
    requires s != [] && !IsNumberWhite(s[0]) && !IsNumberWhite(s[|s| - 1])
    ensures Trim(s) == s
  {
    assert LeadingWhite(s) == 0;
    assert s[0..] == s;
    assert TrailingWhite(s) == 0;
    assert s[..|s|] == s;
  }

  /**
   * Exactly the white space around a non-blank text is removed: `w1` and
   * `w2` are all white space, `t` neither starts nor ends with it.
   */
  lemma TrimPadded(w1: string, t: string, w2: string)
    requires AllNumberWhite(w1) && AllNumberWhite(w2)
    requires t != [] && !IsNumberWhite(t[0]) && !IsNumberWhite(t[|t| - 1])
    ensures Trim(w1 + t + w2) == t
  {
    var s := w1 + t + w2;
    var a := LeadingWhite(s);
    assert s[|w1|] == t[0];
    assert a == |w1|;
    var u := s[a..];
    assert u == t + w2;
    var b := TrailingWhite(u);
    assert u[|t| - 1] == t[|t| - 1];
    assert b == |w2|;
    assert u[..|u| - b] == t;
  }

  /** Text made only of white space trims to nothing. */
  lemma TrimBlank(w: string)
    requires AllNumberWhite(w)
    ensures Trim(w) == []
  {
  }

  /** A digit string within 32 bits, with no sign, '+' or '-', parses to its signed value. */
  lemma ParseSignedDigits(sign: string, ds: string)
    requires sign == "" || sign == "+" || sign == "-"
    requires ds != [] && AllDigits(ds)
    requires Int32Min <= (if sign == "-" then -(DigitsValue(ds) as int) else DigitsValue(ds) as int) <= Int32Max
    ensures ParseSigned(sign + ds) ==
      Some(if sign == "-" then -(DigitsValue(ds) as int) else DigitsValue(ds) as int)
  {
    var t := sign + ds;
    if sign == "" {
      assert t == ds;
      assert t[0] != '-' && t[0] != '+' by { assert IsDigit(ds[0]); }
    } else {
      assert t[0] == sign[0];
      assert t[1..] == ds;
    }
  }

  /** A digit string whose signed value does not fit in 32 bits fails to parse. */
  lemma ParseSignedOutOfRange(sign: string, ds: string)
    requires sign == "" || sign == "+" || sign == "-"
    requires ds != [] && AllDigits(ds)
    requires !(Int32Min <= (if sign == "-" then -(DigitsValue(ds) as int) else DigitsValue(ds) as int) <= Int32Max)
    ensures ParseSigned(sign + ds) == None
  {
    var t := sign + ds;
    if sign == "" {
      assert t == ds;
      assert t[0] != '-' && t[0] != '+' by { assert IsDigit(ds[0]); }
    } else {
      assert t[0] == sign[0];
      assert t[1..] == ds;
    }
  }

  /**
   * A successful parse came from an optional sign followed by digits only,
   * and gives their signed value; so trailing or inner junk, or a second
   * sign, makes the parse fail.
   */
  lemma ParseSignedSound(t: string)
    requires ParseSigned(t).Some?
    ensures SignLength(t) < |t| && AllDigits(t[SignLength(t)..])
    ensures ParseSigned(t).value ==
      if t[0] == '-' then -(DigitsValue(t[SignLength(t)..]) as int) else DigitsValue(t[SignLength(t)..]) as int
  {
  }

  /** Every 32-bit integer printed in decimal parses back to itself. */
  lemma TryParseIntToString(n: int)
    requires Int32Min <= n <= Int32Max
    ensures TryParseInt(IntToString(n)) == Some(n)
  {
    var s := IntToString(n);
    var digits := NatToDigits(if n < 0 then -n else n);
    DigitsValueOfNat(if n < 0 then -n else n);
    assert !IsNumberWhite(s[0]) by {
      if n >= 0 { assert IsDigit(digits[0]); }
    }
    assert !IsNumberWhite(s[|s| - 1]) by {
      assert s[|s| - 1] == digits[|digits| - 1];
      assert IsDigit(digits[|digits| - 1]);
    }
    TrimUnpadded(s);
    ParseSignedDigits(if n < 0 then "-" else "", digits);
    assert n >= 0 ==> s == "" + digits;
  }

  /** A string with no digit at all never parses. */
  lemma TryParseNeedsDigit(s: string)
    requires forall i :: 0 <= i < |s| ==> !IsDigit(s[i])
    ensures TryParseInt(s) == None
  {
    var a := LeadingWhite(s);
    var t := s[a..];
    var r := t[..|t| - TrailingWhite(t)];
    var skip := if r != [] && (r[0] == '-' || r[0] == '+') then 1 else 0;
    var body := r[skip..];
    assert body == if skip == 1 then r[1..] else r;
    if body != [] {
      assert body[0] == s[a + skip];
    }
  }

  // ---------------------------------------------------------------------
  // The connect argument
  // ---------------------------------------------------------------------

  /**
   * The host and port that HandleCommandLine derives from the value of
   * `connect=`, before handing them to IPAddress.TryParse.
   */
  method ConnectTarget(arg: string, defaultPort: int) returns (host: string, port: int)
    ensures host <= arg && ':' !in host
    ensures |host| == |arg| || arg[|host|] == ':'
    ensures Count(arg, ':') != 1 ==> port == defaultPort
    ensures Count(arg, ':') == 1 ==>
      (|Split(arg, ':')| == 2 &&
       var p := TryParseInt(Split(arg, ':')[1]);
       port == if p.Some? then p.value else 0)
  {
    host := arg;
    port := defaultPort;

    var split := Split(arg, ':');
    SplitHead(arg, ':');
    SplitLength(arg, ':');
    if |split| == 0 {
      host := Loopback;
    } else if |split| >= 1 {
      host := split[0];
    }

    if |split| == 2 {
      // int.TryParse writes its out argument even when it fails.
      var parsed := TryParseInt(split[1]);
      port := if parsed.Some? then parsed.value else 0;
    }
  }

  /** A host free of ':' and a printed 32-bit port split back to themselves. */
  lemma FormattedTargetSplits(host: string, port: int)
    requires ':' !in host
    requires Int32Min <= port <= Int32Max
    ensures Split(host + ":" + IntToString(port), ':') == [host, IntToString(port)]
    ensures TryParseInt(Split(host + ":" + IntToString(port), ':')[1]) == Some(port)
  {
    var p := IntToString(port);
    assert ':' !in p by {
      var ds := NatToDigits(if port < 0 then -port else port);
      assert forall i :: 0 <= i < |ds| ==> ds[i] != ':';
    }
    SplitTwo(host, ':', p);
    TryParseIntToString(port);
  }
}
