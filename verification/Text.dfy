/** The string operations the cron parser and the key formatter rely on. */
module Text {
  import opened Prelude

  const MAX_INT: int := 0x7fff_ffff_ffff_ffff
  const MIN_INT: int := -0x8000_0000_0000_0000

  // Splitting at a separator, as strings.Split does on a non-empty string.

  function IndexOf(s: string, c: char): (r: nat)
    requires c in s
    ensures r < |s| && s[r] == c && c !in s[..r]
  {
    if s[0] == c then 0 else 1 + IndexOf(s[1..], c)
  }

  function Split(s: string, c: char): (r: seq<string>)
    ensures |r| >= 1
    ensures forall i :: 0 <= i < |r| ==> c !in r[i]
    ensures |r| == 1 <==> c !in s
  {
    if c !in s then [s]
    else
      var i := IndexOf(s, c);
      [s[..i]] + Split(s[i + 1..], c)
  }

  function Join(pieces: seq<string>, c: char): string
    requires |pieces| >= 1
  {
    if |pieces| == 1 then pieces[0] else pieces[0] + [c] + Join(pieces[1..], c)
  }

  lemma JoinCons(p: string, pieces: seq<string>, c: char)
    requires |pieces| >= 1
    ensures Join([p] + pieces, c) == p + [c] + Join(pieces, c)
  {
    assert ([p] + pieces)[1..] == pieces;
  }

  lemma CutAt(s: string, i: nat)
    requires i < |s|
    ensures s[..i] + [s[i]] + s[i + 1..] == s
  {
  }

  /** Joining the pieces gives the string back. */
  lemma {:induction false} JoinSplit(s: string, c: char)
    ensures Join(Split(s, c), c) == s
  {
    if c in s {
      var i := IndexOf(s, c);
      var head, tail := s[..i], s[i + 1..];
      JoinSplit(tail, c);
      JoinCons(head, Split(tail, c), c);
      CutAt(s, i);
    }
  }

  lemma {:induction false} IndexAfter(a: string, c: char, b: string)
    requires c !in a
    ensures c in a + [c] + b && IndexOf(a + [c] + b, c) == |a|
  {
    assert (a + [c] + b)[|a|] == c;
    if a != "" {
      IndexAfter(a[1..], c, b);
      assert (a + [c] + b)[1..] == a[1..] + [c] + b;
    }
  }

  lemma SplitCons(a: string, c: char, b: string)
    requires c !in a
    ensures Split(a + [c] + b, c) == [a] + Split(b, c)
  {
    var s := a + [c] + b;
    IndexAfter(a, c, b);
    assert s[..|a|] == a;
    assert s[|a| + 1..] == b;
  }

  /** Splitting recovers pieces that do not hold the separator. */
  lemma {:induction false} SplitJoin(pieces: seq<string>, c: char)
    requires |pieces| >= 1
    requires forall i :: 0 <= i < |pieces| ==> c !in pieces[i]
    ensures Split(Join(pieces, c), c) == pieces
  {
    if |pieces| > 1 {
      SplitJoin(pieces[1..], c);
      SplitCons(pieces[0], c, Join(pieces[1..], c));
      assert pieces == [pieces[0]] + pieces[1..];
    }
  }

  // Splitting at white space, as strings.Fields does.

  predicate IsSpace(c: char) {
    || c == ' ' || '\t' <= c <= '\r' || c == '\U{0085}' || c == '\U{00A0}' || c == '\U{1680}'
    || '\U{2000}' <= c <= '\U{200A}' || c == '\U{2028}' || c == '\U{2029}' || c == '\U{202F}'
    || c == '\U{205F}' || c == '\U{3000}'
  }

  /** Nothing but white space. */
  predicate Blank(s: string) {
    forall c | c in s :: IsSpace(c)
  }

  /** strings.TrimSpace. */
  function TrimSpace(s: string): (r: string)
    ensures r == "" <==> Blank(s)
    ensures r != "" ==> !IsSpace(r[0]) && !IsSpace(r[|r| - 1])
    decreases |s|
  {
    if s == "" then ""
    else if IsSpace(s[0]) then TrimSpace(s[1..])
    else if IsSpace(s[|s| - 1]) then TrimSpace(s[..|s| - 1])
    else s
  }

  lemma OneMoreInFront(s: string, before: string, middle: string, after: string)
    requires s != "" && s[1..] == before + middle + after
    ensures s == [s[0]] + before + middle + after
  {
    assert s == [s[0]] + s[1..];
  }

  lemma OneMoreBehind(s: string, before: string, middle: string, after: string)
    requires s != "" && s[..|s| - 1] == before + middle + after
    ensures s == before + middle + (after + [s[|s| - 1]])
  {
    assert s == s[..|s| - 1] + [s[|s| - 1]];
  }

  /** TrimSpace cuts white space off both ends and nothing else. */
  lemma {:induction false} TrimSpaceCuts(s: string) returns (before: string, after: string)
    ensures s == before + TrimSpace(s) + after && Blank(before) && Blank(after)
    decreases |s|
  {
    before, after := "", "";
    if s != "" && IsSpace(s[0]) {
      before, after := TrimSpaceCuts(s[1..]);
      OneMoreInFront(s, before, TrimSpace(s), after);
      before := [s[0]] + before;
    } else if s != "" && IsSpace(s[|s| - 1]) {
      before, after := TrimSpaceCuts(s[..|s| - 1]);
      OneMoreBehind(s, before, TrimSpace(s), after);
      after := after + [s[|s| - 1]];
    }
  }

  predicate SpaceFree(s: string) {
    forall i :: 0 <= i < |s| ==> !IsSpace(s[i])
  }

  function TokenLength(s: string): (n: nat)
    ensures n <= |s| && SpaceFree(s[..n])
    ensures n < |s| ==> IsSpace(s[n])
  {
    if s == "" || IsSpace(s[0]) then 0 else 1 + TokenLength(s[1..])
  }

  function Fields(s: string): (r: seq<string>)
    ensures forall i :: 0 <= i < |r| ==> r[i] != "" && SpaceFree(r[i])
    decreases |s|
  {
    if s == "" then []
    else if IsSpace(s[0]) then Fields(s[1..])
    else [s[..TokenLength(s)]] + Fields(s[TokenLength(s)..])
  }

  lemma {:induction false} TokenLengthOf(t: string, rest: string)
    requires SpaceFree(t) && (rest == "" || IsSpace(rest[0]))
    ensures TokenLength(t + rest) == |t|
  {
    if t != "" {
      assert (t + rest)[1..] == t[1..] + rest;
      TokenLengthOf(t[1..], rest);
    } else {
      assert t + rest == rest;
    }
  }

  /** White space before the tokens does not matter, */
  lemma {:induction false} FieldsSkipSpace(w: string, s: string)
    requires Blank(w)
    ensures Fields(w + s) == Fields(s)
  {
    if w == "" {
      assert w + s == s;
    } else {
      assert (w + s)[1..] == w[1..] + s;
      FieldsSkipSpace(w[1..], s);
    }
  }

  /** and a token that ends the text or is followed by white space is the next field. */
  lemma FieldsOneToken(t: string, rest: string)
    requires t != "" && SpaceFree(t) && (rest == "" || IsSpace(rest[0]))
    ensures Fields(t + rest) == [t] + Fields(rest)
  {
    TokenLengthOf(t, rest);
    assert (t + rest)[..|t|] == t && (t + rest)[|t|..] == rest;
  }

  /** Space-free tokens written with single spaces between them are found again. */
  lemma {:induction false} FieldsOfTokens(tokens: seq<string>)
    requires |tokens| >= 1
    requires forall i :: 0 <= i < |tokens| ==> tokens[i] != "" && SpaceFree(tokens[i])
    ensures Fields(Join(tokens, ' ')) == tokens
  {
    var t := tokens[0];
    if |tokens| == 1 {
      TokenLengthOf(t, "");
      assert t + "" == t;
      assert t[..|t|] == t && t[|t|..] == "";
    } else {
      var tail := Join(tokens[1..], ' ');
      var rest := " " + tail;
      assert t + [' '] + tail == t + rest;
      TokenLengthOf(t, rest);
      assert (t + rest)[..|t|] == t && (t + rest)[|t|..] == rest && rest[1..] == tail;
      assert Fields(rest) == Fields(tail);
      FieldsOfTokens(tokens[1..]);
    }
  }

  // Decimal numerals.

  predicate AllDigits(s: string) {
    forall i :: 0 <= i < |s| ==> '0' <= s[i] <= '9'
  }

  function DecimalValue(s: string): (r: int)
    requires AllDigits(s)
    ensures r >= 0
  {
    if s == "" then 0 else 10 * DecimalValue(s[..|s| - 1]) + (s[|s| - 1] as int - '0' as int)
  }

  /** strconv.Atoi: an optional sign, at least one digit, and a value that fits 64 bits. */
  function Atoi(s: string): (r: Option<int>)
    ensures r.Some? ==> MIN_INT <= r.value <= MAX_INT
  {
    var digits := if s != "" && (s[0] == '+' || s[0] == '-') then s[1..] else s;
    if digits == "" || !AllDigits(digits) then None
    else
      var v := if s[0] == '-' then -DecimalValue(digits) else DecimalValue(digits);
      if MIN_INT <= v <= MAX_INT then Some(v) else None
  }

  function Digit(d: int): (c: char)
    requires 0 <= d <= 9
    ensures '0' <= c <= '9' && c as int - '0' as int == d
  {
    (d + '0' as int) as char
  }

  lemma AppendDigit(front: string, d: int)
    requires AllDigits(front) && 0 <= d <= 9
    ensures AllDigits(front + [Digit(d)])
    ensures DecimalValue(front + [Digit(d)]) == 10 * DecimalValue(front) + d
  {
    var s := front + [Digit(d)];
    assert s[..|s| - 1] == front && s[|s| - 1] == Digit(d);
  }

  /** Decimal digits of n, padded with zeros to at least the given width. */
  function Decimal(n: nat, width: nat): (s: string)
    ensures |s| >= width
    decreases n, width
  {
    if n == 0 && width == 0 then ""
    else Decimal(n / 10, if width == 0 then 0 else width - 1) + [Digit(n % 10)]
  }

  /** The numeral of n has the value n. */
  lemma {:induction false} DecimalRoundTrip(n: nat, width: nat)
    ensures AllDigits(Decimal(n, width)) && DecimalValue(Decimal(n, width)) == n
    decreases n, width
  {
    if n != 0 || width != 0 {
      var w := if width == 0 then 0 else width - 1;
      DecimalRoundTrip(n / 10, w);
      AppendDigit(Decimal(n / 10, w), n % 10);
    }
  }

  /** Numerals of at least one digit are read back. */
  lemma AtoiOfDecimal(n: nat, width: nat)
    requires width >= 1 && n <= MAX_INT
    ensures Atoi(Decimal(n, width)) == Some(n)
  {
    DecimalRoundTrip(n, width);
    var s := Decimal(n, width);
    assert '0' <= s[0] <= '9';
  }
}
