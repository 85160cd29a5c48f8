/**
 * The behaviour of the Go library routines the core relies on: prefix tests,
 * trimming by a cut set, splitting on a separator byte, and strconv's integer
 * parsing and formatting. Bytes received from the modem are read as strings
 * whose characters have the byte's code, which is what Go's []byte-to-string
 * conversion does.
 */
module GoStrings {
  import opened Results

  type Byte = b: int | 0 <= b < 256

  const MinInt32: int := -0x8000_0000
  const MaxInt32: int := 0x7FFF_FFFF

  /** strings.HasPrefix / bytes.HasPrefix. */
  predicate HasPrefix<T(==)>(s: seq<T>, prefix: seq<T>) {
    prefix <= s
  }

  /** The bytes of a string all of whose characters are below 256. */
  function Ascii(s: string): (b: seq<Byte>)
    requires forall i :: 0 <= i < |s| ==> s[i] as int < 256
    ensures |b| == |s|
    ensures forall i :: 0 <= i < |s| ==> b[i] == s[i] as int
  {
    seq(|s|, i requires 0 <= i < |s| => s[i] as int as Byte)
  }

  /** string(b): the string whose characters have the bytes' codes. */
  function Text(b: seq<Byte>): (s: string)
    ensures |s| == |b|
    ensures forall i :: 0 <= i < |b| ==> s[i] as int == b[i]
  {
    seq(|b|, i requires 0 <= i < |b| => b[i] as char)
  }

  // ---------------------------------------------------------------------------
  // strings.Trim / bytes.Trim: drop the leading and trailing characters that
  // belong to the cut set.

  /** Drop one cut-set character at a time from the front, then from the back. */
  function Trim(s: string, cutset: set<char>): (r: string)
    ensures |r| <= |s|
    decreases |s|
  {
    if s == [] then s
    else if s[0] in cutset then Trim(s[1..], cutset)
    else if s[|s| - 1] in cutset then Trim(s[..|s| - 1], cutset)
    else s
  }

  /** How many characters of the cut set s starts with. */
  function LeadingCut(s: string, cutset: set<char>): (n: nat)
    ensures n <= |s|
  {
    if s != [] && s[0] in cutset then 1 + LeadingCut(s[1..], cutset) else 0
  }

  /** What Trim promises: the result is the infix of s left after dropping
      cut-set characters at both ends, and it neither starts nor ends with one. */
  lemma {:induction false} TrimIsMaximalInfix(s: string, cutset: set<char>)
    ensures var r, i := Trim(s, cutset), LeadingCut(s, cutset);
      && i + |r| <= |s| && r == s[i..i + |r|]
      && (forall k :: 0 <= k < i ==> s[k] in cutset)
      && (forall k :: i + |r| <= k < |s| ==> s[k] in cutset)
      && (r == [] || (r[0] !in cutset && r[|r| - 1] !in cutset))
    decreases |s|
  {
    var r, i := Trim(s, cutset), LeadingCut(s, cutset);
    if s == [] {
    } else if s[0] in cutset {
      var t := s[1..];
      TrimIsMaximalInfix(t, cutset);
      assert r == Trim(t, cutset) && i == 1 + LeadingCut(t, cutset);
      forall k | 1 <= k < |s| ensures s[k] == t[k - 1] {}
    } else if s[|s| - 1] in cutset {
      var t := s[..|s| - 1];
      TrimIsMaximalInfix(t, cutset);
      assert r == Trim(t, cutset) && i == 0 && LeadingCut(t, cutset) == 0;
      forall k | 0 <= k < |t| ensures s[k] == t[k] {}
    } else {
      assert r == s && i == 0;
    }
  }

  lemma TrimKeepsClean(s: string, cutset: set<char>)
    requires s == [] || (s[0] !in cutset && s[|s| - 1] !in cutset)
    ensures Trim(s, cutset) == s
  {
  }

  /** Trimming a padded string whose own ends are clean removes just the pad. */
  lemma {:induction false} TrimPadded(pad: string, s: string, cutset: set<char>)
    requires forall i :: 0 <= i < |pad| ==> pad[i] in cutset
    requires s != [] && s[0] !in cutset && s[|s| - 1] !in cutset
    ensures Trim(pad + s, cutset) == s
  {
    if pad == [] {
      assert pad + s == s;
    } else {
      assert (pad + s)[1..] == pad[1..] + s;
      TrimPadded(pad[1..], s, cutset);
    }
  }

  // ---------------------------------------------------------------------------
  // strings.Split with a one-character separator.

  function Split(s: string, sep: char): (r: seq<string>)
    ensures |r| >= 1
  {
    if s == [] then [""]
    else
      var rest := Split(s[1..], sep);
      if s[0] == sep then [""] + rest
      else [[s[0]] + rest[0]] + rest[1..]
  }

  /** strings.Join: the pieces with one separator between neighbours. */
  function Join(pieces: seq<string>, sep: char): string
    requires |pieces| >= 1
  {
    if |pieces| == 1 then pieces[0]
    else pieces[0] + [sep] + Join(pieces[1..], sep)
  }

  function Count(s: string, c: char): nat {
    if s == [] then 0 else (if s[0] == c then 1 else 0) + Count(s[1..], c)
  }

  /** Splitting loses nothing: joining the pieces gives the string back. */
  lemma {:induction false} JoinSplit(s: string, sep: char)
    ensures Join(Split(s, sep), sep) == s
  {
    if s != [] {
      JoinSplit(s[1..], sep);
      var rest := Split(s[1..], sep);
      if s[0] == sep {
        assert Split(s, sep) == [""] + rest;
      } else {
        var r := Split(s, sep);
        assert r == [[s[0]] + rest[0]] + rest[1..];
        if |rest| == 1 {
          assert Join(r, sep) == [s[0]] + rest[0];
        } else {
          assert r[1..] == rest[1..];
          assert Join(r, sep) == [s[0]] + rest[0] + [sep] + Join(rest[1..], sep);
        }
      }
    }
  }

  /** There is one piece more than there are separators. */
  lemma {:induction false} SplitCount(s: string, sep: char)
    ensures |Split(s, sep)| == Count(s, sep) + 1
  {
    if s != [] {
      SplitCount(s[1..], sep);
    }
  }

  /** Splitting a join of separator-free pieces gives the pieces back. */
  lemma {:induction false} SplitJoin(pieces: seq<string>, sep: char)
    requires |pieces| >= 1
    requires forall k :: 0 <= k < |pieces| ==> sep !in pieces[k]
    ensures Split(Join(pieces, sep), sep) == pieces
  {
    if |pieces| == 1 {
      SplitFree(pieces[0], sep);
    } else {
      SplitJoin(pieces[1..], sep);
      SplitPrefix(pieces[0], Join(pieces[1..], sep), sep);
    }
  }

  lemma {:induction false} SplitFree(s: string, sep: char)
    requires sep !in s
    ensures Split(s, sep) == [s]
  {
    if s != [] {
      assert sep !in s[1..] by {
        forall k | 0 <= k < |s| - 1 ensures s[1..][k] != sep {
          assert s[1..][k] == s[k + 1];
        }
      }
      SplitFree(s[1..], sep);
      assert [s[0]] + s[1..] == s;
    }
  }

  lemma {:induction false} SplitPrefix(p: string, t: string, sep: char)
    requires sep !in p
    ensures Split(p + [sep] + t, sep) == [p] + Split(t, sep)
  {
    if p == [] {
      assert [sep] + t == p + [sep] + t;
      assert ([sep] + t)[1..] == t;
    } else {
      assert (p + [sep] + t)[1..] == p[1..] + [sep] + t;
      SplitPrefix(p[1..], t, sep);
      assert [p[0]] + p[1..] == p;
    }
  }

  // ---------------------------------------------------------------------------
  // strconv.ParseInt(s, base, 32) with an explicit base: an optional sign,
  // then one or more digits of the base (letters in either case), and a value
  // in the int32 range; anything else is an error.

  /** The digit value strconv gives a character, 36 when it is no digit at all. */
  function DigitValue(c: char): (d: nat)
    ensures d <= 36
  {
    if '0' <= c <= '9' then c as int - '0' as int
    else if 'a' <= c <= 'z' then c as int - 'a' as int + 10
    else if 'A' <= c <= 'Z' then c as int - 'A' as int + 10
    else 36
  }

  /** The value of a digit string, most significant digit first, or None
      when some character is not a digit of the base. */
  function DigitsValue(s: string, base: nat): Option<nat> {
    if s == [] then Some(0)
    else
      match DigitsValue(s[..|s| - 1], base)
      case None => None
      case Some(v) =>
        var d := DigitValue(s[|s| - 1]);
        if d < base then Some(v * base + d) else None
  }

  function ParseInt32(s: string, base: nat): (r: Option<int>)
    requires 2 <= base <= 36
    ensures r.Some? ==> MinInt32 <= r.value <= MaxInt32
    ensures s == [] ==> r == None
  {
    if s == [] then None
    else
      var neg := s[0] == '-';
      var body := if s[0] == '+' || s[0] == '-' then s[1..] else s;
      if body == [] then None
      else
        match DigitsValue(body, base)
        case None => None
        case Some(d) =>
          var v := if neg then 0 - d else d;
          if MinInt32 <= v <= MaxInt32 then Some(v) else None
  }

  // strconv.FormatInt / fmt's %d for a non-negative value: lower-case digits,
  // no sign, no leading zeros.

  function DigitChar(d: nat): (c: char)
    requires d < 36
    ensures DigitValue(c) == d
  {
    if d < 10 then ('0' as int + d) as char else ('a' as int + d - 10) as char
  }

  function FormatNat(n: nat, base: nat): (s: string)
    requires 2 <= base <= 36
    ensures s != [] && forall i :: 0 <= i < |s| ==> DigitValue(s[i]) < base
    ensures forall i :: 0 <= i < |s| ==> s[i] != '+' && s[i] != '-'
  {
    if n < base then [DigitChar(n)]
    else
      var q, d := n / base, n % base;
      DivModFacts(n, base);
      FormatNat(q, base) + [DigitChar(d)]
  }

  lemma DivModFacts(n: nat, base: nat)
    requires 2 <= base && base <= n
    ensures n % base < base && n / base < n && n == n / base * base + n % base
  {
  }

  lemma {:induction false} FormatNatValue(n: nat, base: nat)
    requires 2 <= base <= 36
    ensures DigitsValue(FormatNat(n, base), base) == Some(n)
  {
    var s := FormatNat(n, base);
    if n < base {
      assert s == [DigitChar(n)];
      assert s[..0] == [];
    } else {
      var q, d := n / base, n % base;
      DivModFacts(n, base);
      FormatNatValue(q, base);
      assert s == FormatNat(q, base) + [DigitChar(d)];
      assert s[..|s| - 1] == FormatNat(q, base);
      assert DigitsValue(s, base) == Some(q * base + d);
    }
  }

  /** Formatting a value in the int32 range and parsing it back gives the value. */
  lemma FormatParseRoundTrip(n: nat, base: nat)
    requires 2 <= base <= 36
    requires n <= MaxInt32
    ensures ParseInt32(FormatNat(n, base), base) == Some(n)
  {
    FormatNatValue(n, base);
  }

  /** A leading minus sign negates the parsed value. */
  lemma ParseNegative(n: nat, base: nat)
    requires 2 <= base <= 36
    requires n <= -MinInt32
    ensures ParseInt32("-" + FormatNat(n, base), base) == Some(0 - n)
  {
    FormatNatValue(n, base);
    assert ("-" + FormatNat(n, base))[1..] == FormatNat(n, base);
  }
}
