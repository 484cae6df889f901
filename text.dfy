/** String operations the application applies to location names: the
    whitespace class of JavaScript regular expressions and `trim`, the
    filename sanitiser, decimal rendering of whole numbers, and joining and
    splitting on a separator. A `char` is a Unicode scalar value. */
module Text {

  /** JavaScript's `\s`, which is also the set `trim` removes: WhiteSpace
      (tab, vertical tab, form feed, space, no-break space, the byte order
      mark and every other space separator, among them U+2000 to U+200A)
      and LineTerminator (line feed, carriage return, line and paragraph
      separators). */
  predicate IsWhitespace(c: char)
    ensures c == ' ' || c == '\t' || c == '\n' || c == '\r' ==> IsWhitespace(c)
  {
    c as int in WhitespaceCodePoints || 0x2000 <= c as int <= 0x200A
  }

  /** The whitespace code points outside the range U+2000 to U+200A. */
  const WhitespaceCodePoints: set<int> :=
    {0x09, 0x0A, 0x0B, 0x0C, 0x0D, 0x20, 0xA0, 0x1680, 0x2028, 0x2029, 0x202F, 0x205F, 0x3000, 0xFEFF}

  predicate IsAsciiAlphanumeric(c: char)
  {
    ('a' <= c <= 'z') || ('A' <= c <= 'Z') || ('0' <= c <= '9')
  }

  /** The characters the filename sanitiser keeps: the class `[a-zA-Z0-9\s]`. */
  predicate IsKept(c: char)
    ensures c == '-' || c == '&' || c == '.' || c == '/' || c == '_' ==> !IsKept(c)
    ensures c as int < 128 ==>
      (IsKept(c) <==> IsAsciiAlphanumeric(c) || c as int in {0x09, 0x0A, 0x0B, 0x0C, 0x0D, 0x20})
  {
    IsAsciiAlphanumeric(c) || IsWhitespace(c)
  }

  predicate AllWhitespace(s: string)
  {
    forall k :: 0 <= k < |s| ==> IsWhitespace(s[k])
  }

  predicate AllKept(s: string)
  {
    forall k :: 0 <= k < |s| ==> IsKept(s[k])
  }

  /** The number of whitespace characters `s` starts with. */
  function LeadingWhitespace(s: string): (n: nat)
    ensures n <= |s| && AllWhitespace(s[..n])
    ensures n < |s| ==> !IsWhitespace(s[n])
  {
    if s != [] && IsWhitespace(s[0]) then
      var m := LeadingWhitespace(s[1..]);
      assert s[..m + 1] == [s[0]] + s[1..][..m];
      m + 1
    else
      0
  }

  /** The number of whitespace characters `s` ends with. */
  function TrailingWhitespace(s: string): (n: nat)
    ensures n <= |s| && AllWhitespace(s[|s| - n..])
    ensures n < |s| ==> !IsWhitespace(s[|s| - n - 1])
  {
    if s != [] && IsWhitespace(s[|s| - 1]) then
      var prefix := s[..|s| - 1];
      var m := TrailingWhitespace(prefix);
      assert s[|s| - (m + 1)..] == prefix[|prefix| - m..] + [s[|s| - 1]];
      m + 1
    else
      0
  }

  /** `trimStart`: `s` without its leading whitespace. */
  function TrimStart(s: string): (r: string)
    ensures r == [] || !IsWhitespace(r[0])
  {
    s[LeadingWhitespace(s)..]
  }

  /** `trimEnd`: `s` without its trailing whitespace. */
  function TrimEnd(s: string): (r: string)
    ensures r == [] || !IsWhitespace(r[|r| - 1])
  {
    s[..|s| - TrailingWhitespace(s)]
  }

  /** `trim`: `s` without its leading and trailing whitespace. The result is
      empty exactly when `s` is all whitespace, and otherwise starts and ends
      with a character that is not whitespace. */
  function Trim(s: string): (r: string)
    ensures r == [] <==> AllWhitespace(s)
    ensures r != [] ==> !IsWhitespace(r[0]) && !IsWhitespace(r[|r| - 1])
  {
    TrimBoundaries(s, LeadingWhitespace(s), TrailingWhitespace(s[LeadingWhitespace(s)..]));
    TrimEnd(TrimStart(s))
  }

  /** Why `Trim` keeps its promises: `lead` and `trail` are the whitespace
      counts at the two ends of `s` and of what follows the leading run. */
  lemma {:induction false} TrimBoundaries(s: string, lead: nat, trail: nat)
    requires lead <= |s| && AllWhitespace(s[..lead]) && (lead < |s| ==> !IsWhitespace(s[lead]))
    requires trail <= |s| - lead && AllWhitespace(s[|s| - trail..])
    requires trail < |s| - lead ==> !IsWhitespace(s[|s| - trail - 1])
    ensures lead + trail == |s| <==> AllWhitespace(s)
    ensures lead + trail < |s| ==> !IsWhitespace(s[lead]) && !IsWhitespace(s[|s| - trail - 1])
  {
    if lead == |s| {
      assert s[..lead] == s;
    }
  }

  /** The trimmed text is the piece of `s` that starts after its leading
      whitespace. */
  lemma {:induction false} TrimIsInfix(s: string)
    ensures LeadingWhitespace(s) + |Trim(s)| <= |s|
    ensures Trim(s) == s[LeadingWhitespace(s)..LeadingWhitespace(s) + |Trim(s)|]
  {
    var lead := LeadingWhitespace(s);
    var t := s[lead..];
    var r := t[..|t| - TrailingWhitespace(t)];
    assert TrimStart(s) == t;
    assert Trim(s) == r;
    assert r == s[lead..lead + |r|];
  }

  /** What `trim` removes, before and after that piece, is whitespace. */
  lemma {:induction false} TrimRemovesOnlyWhitespace(s: string)
    ensures LeadingWhitespace(s) + |Trim(s)| <= |s|
    ensures AllWhitespace(s[..LeadingWhitespace(s)])
    ensures AllWhitespace(s[LeadingWhitespace(s) + |Trim(s)|..])
  {
    var lead := LeadingWhitespace(s);
    var t := s[lead..];
    var trail := TrailingWhitespace(t);
    assert TrimStart(s) == t;
    assert |Trim(s)| == |t| - trail;
    assert s[lead + |t| - trail..] == t[|t| - trail..];
  }

  /** Trimming twice is trimming once. */
  lemma {:induction false} TrimIdempotent(s: string)
    ensures Trim(Trim(s)) == Trim(s)
  {
    var r := Trim(s);
    if r != [] {
      assert LeadingWhitespace(r) == 0;
      assert TrimStart(r) == r;
      assert TrailingWhitespace(r) == 0;
      assert TrimEnd(r) == r;
    }
  }

  /** `name.replace(/[^a-zA-Z0-9\s]/g, '')`: drops every character outside
      the kept class. The result holds only kept characters and is never
      longer than `s`. */
  function Sanitize(s: string): (r: string)
    ensures |r| <= |s|
    ensures AllKept(r)
  {
    if s == [] then []
    else (if IsKept(s[0]) then [s[0]] else []) + Sanitize(s[1..])
  }

  /** The sanitiser keeps every kept character of `s`, as often as `s`
      holds it, and no other character. */
  lemma {:induction false} SanitizeCounts(s: string, c: char)
    ensures multiset(Sanitize(s))[c] == if IsKept(c) then multiset(s)[c] else 0
  {
    if s != [] {
      SanitizeCounts(s[1..], c);
      assert s == [s[0]] + s[1..];
    }
  }

  /** A string of kept characters comes through the sanitiser unchanged. */
  lemma {:induction false} SanitizeKeepsClean(s: string)
    requires AllKept(s)
    ensures Sanitize(s) == s
  {
    if s != [] {
      SanitizeKeepsClean(s[1..]);
    }
  }

  /** Sanitising twice is sanitising once. */
  lemma {:induction false} SanitizeIdempotent(s: string)
    ensures Sanitize(Sanitize(s)) == Sanitize(s)
  {
    SanitizeKeepsClean(Sanitize(s));
  }

  /** The sanitiser works character by character, so it keeps the order of
      what it keeps: sanitising a concatenation sanitises each part. */
  lemma {:induction false} SanitizeAppend(a: string, b: string)
    ensures Sanitize(a + b) == Sanitize(a) + Sanitize(b)
  {
    if a != [] {
      var ab := a + b;
      assert ab[0] == a[0];
      assert ab[1..] == a[1..] + b;
      SanitizeAppend(a[1..], b);
      var head := if IsKept(a[0]) then [a[0]] else [];
      assert Sanitize(ab) == head + Sanitize(a[1..] + b);
      assert Sanitize(a) == head + Sanitize(a[1..]);
      assert head + (Sanitize(a[1..]) + Sanitize(b)) == (head + Sanitize(a[1..])) + Sanitize(b);
    } else {
      assert a + b == b;
    }
  }

  predicate IsDigit(c: char)
  {
    '0' <= c <= '9'
  }

  predicate AllDigits(s: string)
  {
    forall k :: 0 <= k < |s| ==> IsDigit(s[k])
  }

  function DigitChar(d: nat): char
    requires d < 10
  {
    ('0' as int + d) as char
  }

  /** The decimal text of a whole number, as a template literal renders it:
      digits only, never empty, and no leading zero except for zero itself. */
  function Decimal(n: nat): (r: string)
    ensures r != [] && AllDigits(r)
    ensures r[0] == '0' ==> n == 0
  {
    if n < 10 then [DigitChar(n)] else Decimal(n / 10) + [DigitChar(n % 10)]
  }

  /** The value of a string of digits (what `parseInt` yields for one). */
  function DecimalValue(s: string): nat
    requires AllDigits(s)
  {
    if s == [] then 0
    else DecimalValue(s[..|s| - 1]) * 10 + (s[|s| - 1] as int - '0' as int)
  }

  /** Reading back the decimal text of a number gives the number. */
  lemma {:induction false} DecimalRoundTrip(n: nat)
    ensures DecimalValue(Decimal(n)) == n
  {
    if n >= 10 {
      var s := Decimal(n);
      assert s[..|s| - 1] == Decimal(n / 10);
      DecimalRoundTrip(n / 10);
    }
  }

  /** Different numbers have different decimal texts. */
  lemma {:induction false} DecimalInjective(a: nat, b: nat)
    requires Decimal(a) == Decimal(b)
    ensures a == b
  {
    DecimalRoundTrip(a);
    DecimalRoundTrip(b);
  }

  /** `parts.join(sep)`: the parts in order with one separator between
      neighbours; joining no parts gives the empty string. */
  function Join(parts: seq<string>, sep: char): (r: string)
    ensures |parts| == 1 ==> r == parts[0]
  {
    if |parts| == 0 then []
    else if |parts| == 1 then parts[0]
    else parts[0] + [sep] + Join(parts[1..], sep)
  }

  /** When no part holds the separator, a join of `n` parts holds exactly
      `n - 1` separators. */
  lemma {:induction false} JoinSeparatorCount(parts: seq<string>, sep: char)
    requires parts != []
    requires forall k :: 0 <= k < |parts| ==> sep !in parts[k]
    ensures multiset(Join(parts, sep))[sep] == |parts| - 1
  {
    if |parts| > 1 {
      JoinSeparatorCount(parts[1..], sep);
      assert sep !in parts[0];
    }
  }

  /** `s.split(sep)` for a one-character separator: the pieces between
      separators; there is always at least one. */
  function Split(s: string, sep: char): (parts: seq<string>)
    ensures |parts| >= 1
  {
    if s == [] then [[]]
    else
      var rest := Split(s[1..], sep);
      if s[0] == sep then [[]] + rest
      else [[s[0]] + rest[0]] + rest[1..]
  }

  /** No piece of a split holds the separator. */
  lemma {:induction false} SplitPiecesSeparatorFree(s: string, sep: char)
    ensures forall k :: 0 <= k < |Split(s, sep)| ==> sep !in Split(s, sep)[k]
  {
    if s != [] {
      SplitPiecesSeparatorFree(s[1..], sep);
    }
  }

  /** Splitting a text that starts with a character other than the
      separator extends the first piece. */
  lemma {:induction false} SplitCons(c: char, t: string, sep: char)
    requires c != sep
    ensures Split([c] + t, sep) == [[c] + Split(t, sep)[0]] + Split(t, sep)[1..]
  {
    assert ([c] + t)[0] == c && ([c] + t)[1..] == t;
  }

  /** Splitting a text that starts with a separator-free piece. */
  lemma {:induction false} SplitPrefix(x: string, t: string, sep: char)
    requires sep !in x
    ensures Split(x + t, sep) == [x + Split(t, sep)[0]] + Split(t, sep)[1..]
    decreases |x|, 1
  {
    if x == [] {
      var st := Split(t, sep);
      assert x + t == t && x + st[0] == st[0];
      assert st == [st[0]] + st[1..];
    } else {
      SplitPrefixStep(x, t, sep);
    }
  }

  /** The inductive step of `SplitPrefix`, for a non-empty piece. */
  lemma {:induction false} SplitPrefixStep(x: string, t: string, sep: char)
    requires sep !in x && x != []
    ensures Split(x + t, sep) == [x + Split(t, sep)[0]] + Split(t, sep)[1..]
    decreases |x|, 0
  {
    var st := Split(t, sep);
    var tail := x[1..];
    assert x + t == [x[0]] + (tail + t);
    SplitCons(x[0], tail + t, sep);
    SplitPrefix(tail, t, sep);
    assert [x[0]] + (tail + st[0]) == x + st[0];
  }

  /** Splitting undoes joining, for a non-empty list of separator-free parts. */
  lemma {:induction false} SplitJoin(parts: seq<string>, sep: char)
    requires parts != []
    requires forall k :: 0 <= k < |parts| ==> sep !in parts[k]
    ensures Split(Join(parts, sep), sep) == parts
  {
    if |parts| == 1 {
      SplitPrefix(parts[0], [], sep);
      assert parts[0] + [] == parts[0];
    } else {
      var tail := Join(parts[1..], sep);
      var sepTail := [sep] + tail;
      SplitJoin(parts[1..], sep);
      assert Join(parts, sep) == parts[0] + sepTail;
      SplitPrefix(parts[0], sepTail, sep);
      assert sepTail[0] == sep && sepTail[1..] == tail;
      assert Split(sepTail, sep) == [[]] + parts[1..];
      assert parts[0] + [] == parts[0];
      assert parts == [parts[0]] + parts[1..];
    }
  }

  /** Joining undoes splitting, for every text. */
  lemma {:induction false} JoinSplit(s: string, sep: char)
    ensures Join(Split(s, sep), sep) == s
  {
    if s != [] {
      var rest := Split(s[1..], sep);
      JoinSplit(s[1..], sep);
      if s[0] == sep {
        var parts := [[]] + rest;
        assert parts[0] == [] && parts[1..] == rest;
        assert Join(parts, sep) == [] + [sep] + Join(rest, sep);
        assert s == [s[0]] + s[1..];
      } else {
        var parts := [[s[0]] + rest[0]] + rest[1..];
        if |rest| == 1 {
          assert Join(parts, sep) == [s[0]] + rest[0];
          assert s == [s[0]] + s[1..];
        } else {
          assert rest == [rest[0]] + rest[1..];
          assert parts[0] == [s[0]] + rest[0] && parts[1..] == rest[1..];
          assert Join(rest, sep) == rest[0] + [sep] + Join(rest[1..], sep);
          assert Join(parts, sep) == ([s[0]] + rest[0]) + [sep] + Join(rest[1..], sep);
          assert s == [s[0]] + s[1..];
        }
      }
    }
  }
}
