/** The string operations of Go's `strings` and `strconv` packages that the modelled code uses,
    with the laws the other modules need. */
module Text {

  datatype Option<+T> = None | Some(value: T)

  /** `unicode.IsSpace`. */
  predicate IsSpace(c: char) {
    '\t' <= c <= '\r' || c == ' ' || c == '\U{0085}' || c == '\U{00A0}' || c == '\U{1680}' ||
    '\U{2000}' <= c <= '\U{200A}' || c == '\U{2028}' || c == '\U{2029}' || c == '\U{202F}' ||
    c == '\U{205F}' || c == '\U{3000}'
  }

  predicate NoSpace(s: string) {
    forall i :: 0 <= i < |s| ==> !IsSpace(s[i])
  }

  function TrimLeft(s: string): string {
    if s != [] && IsSpace(s[0]) then TrimLeft(s[1..]) else s
  }

  function TrimRight(s: string): string {
    if s != [] && IsSpace(s[|s| - 1]) then TrimRight(s[..|s| - 1]) else s
  }

  /** `strings.TrimSpace`. */
  function TrimSpace(s: string): string {
    TrimRight(TrimLeft(s))
  }

  lemma TrimNoSpace(s: string)
    requires s == [] || (!IsSpace(s[0]) && !IsSpace(s[|s| - 1]))
    ensures TrimSpace(s) == s
  {
  }

  /** What trimming leaves is a slice that neither starts nor ends with a space. */
  lemma {:induction false} TrimRightSlice(s: string)
    ensures |TrimRight(s)| <= |s| && TrimRight(s) == s[..|TrimRight(s)|]
    ensures var r := TrimRight(s); r == [] || !IsSpace(r[|r| - 1])
  {
    if s != [] && IsSpace(s[|s| - 1]) {
      TrimRightSlice(s[..|s| - 1]);
    }
  }

  lemma {:induction false} TrimLeftSlice(s: string)
    ensures |TrimLeft(s)| <= |s| && TrimLeft(s) == s[|s| - |TrimLeft(s)|..]
    ensures var r := TrimLeft(s); r == [] || !IsSpace(r[0])
  {
    if s != [] && IsSpace(s[0]) {
      TrimLeftSlice(s[1..]);
    }
  }

  lemma TrimSpaceEnds(s: string)
    ensures var r := TrimSpace(s); r == [] || (!IsSpace(r[0]) && !IsSpace(r[|r| - 1]))
    ensures TrimSpace(TrimSpace(s)) == TrimSpace(s)
    ensures forall c :: c in TrimSpace(s) ==> c in s
  {
    TrimLeftSlice(s);
    TrimRightSlice(TrimLeft(s));
    TrimNoSpace(TrimSpace(s));
  }

  /** What is kept in front by trimming depends only on the first part that is not blank. */
  lemma {:induction false} TrimSpaceHead(x: string, y: string)
    requires exists c :: c in x && !IsSpace(c)
    ensures TrimSpace(x + y) != [] && TrimSpace(x + y)[0] in x && !IsSpace(TrimSpace(x + y)[0])
  {
    if IsSpace(x[0]) {
      var c :| c in x && !IsSpace(c);
      assert c in x[1..];
      TrimSpaceHead(x[1..], y);
      assert (x + y)[1..] == x[1..] + y;
    } else {
      TrimRightKeepsHead(x + y);
      TrimRightSlice(x + y);
    }
  }

  lemma {:induction false} TrimRightKeepsHead(s: string)
    requires s != [] && !IsSpace(s[0])
    ensures TrimRight(s) != []
  {
    if IsSpace(s[|s| - 1]) {
      TrimRightKeepsHead(s[..|s| - 1]);
    }
  }

  /** `strings.Split` with a one-character separator. */
  function Split(s: string, sep: char): (parts: seq<string>)
    ensures parts != []
  {
    if s == [] then [[]]
    else
      var rest := Split(s[1..], sep);
      if s[0] == sep then [[]] + rest else [[s[0]] + rest[0]] + rest[1..]
  }

  /** `strings.Join` with a one-character separator. */
  function Join(parts: seq<string>, sep: char): string {
    if parts == [] then []
    else if |parts| == 1 then parts[0]
    else parts[0] + [sep] + Join(parts[1..], sep)
  }

  lemma {:induction false} JoinEnd(parts: seq<string>, sep: char)
    requires parts != [] && parts[|parts| - 1] != []
    ensures var s := Join(parts, sep); var last := parts[|parts| - 1];
            s != [] && s[|s| - 1] == last[|last| - 1]
  {
    if |parts| > 1 {
      JoinEnd(parts[1..], sep);
    }
  }

  lemma {:induction false} JoinWithout(parts: seq<string>, sep: char, c: char)
    requires c != sep && forall p :: p in parts ==> c !in p
    ensures c !in Join(parts, sep)
  {
    if |parts| > 0 {
      assert parts[0] in parts;
      JoinWithout(parts[1..], sep, c);
    }
  }

  lemma {:induction false} JoinSplit(s: string, sep: char)
    ensures Join(Split(s, sep), sep) == s
  {
    if s != [] {
      JoinSplit(s[1..], sep);
      var rest := Split(s[1..], sep);
      if s[0] == sep {
        assert ([[]] + rest)[1..] == rest;
      } else {
        var parts := [[s[0]] + rest[0]] + rest[1..];
        assert parts[1..] == rest[1..];
        assert s == [s[0]] + s[1..];
      }
    }
  }

  lemma {:induction false} SplitPlain(s: string, sep: char)
    requires sep !in s
    ensures Split(s, sep) == [s]
  {
    if s != [] {
      SplitPlain(s[1..], sep);
      assert s == [s[0]] + s[1..];
    }
  }

  /** The parts with `b` added to the last one. */
  function AppendLast(parts: seq<string>, b: string): seq<string>
    requires parts != []
  {
    parts[..|parts| - 1] + [parts[|parts| - 1] + b]
  }

  lemma AppendLastAfter(first: string, parts: seq<string>, b: string)
    requires parts != []
    ensures AppendLast([first] + parts, b) == [first] + AppendLast(parts, b)
  {
    assert ([first] + parts)[..|parts|] == [first] + parts[..|parts| - 1];
    ConcatAssoc([first], parts[..|parts| - 1], [parts[|parts| - 1] + b]);
  }

  lemma AppendLastInFront(c: char, parts: seq<string>, b: string)
    requires parts != []
    ensures AppendLast([[c] + parts[0]] + parts[1..], b) ==
            [[c] + AppendLast(parts, b)[0]] + AppendLast(parts, b)[1..]
  {
    if |parts| == 1 {
      ConcatAssoc([c], parts[0], b);
    } else {
      AppendLastAfter([c] + parts[0], parts[1..], b);
      AppendLastAfter(parts[0], parts[1..], b);
      assert [parts[0]] + parts[1..] == parts;
    }
  }

  /** Text without separators only lengthens the last part. */
  lemma {:induction false} SplitAppendPlain(a: string, b: string, sep: char)
    requires sep !in b
    ensures var r := Split(a, sep); var n := |r| - 1; Split(a + b, sep) == r[..n] + [r[n] + b]
  {
    if a == [] {
      SplitPlain(b, sep);
      assert a + b == b && Split(a, sep)[0] + b == b;
    } else {
      var r := Split(a[1..], sep);
      SplitAppendPlain(a[1..], b, sep);
      assert (a + b)[1..] == a[1..] + b && Split(a[1..] + b, sep) == AppendLast(r, b);
      if a[0] == sep {
        AppendLastAfter([], r, b);
      } else {
        AppendLastInFront(a[0], r, b);
      }
    }
  }

  lemma {:induction false} LastPartEnd(s: string, sep: char)
    requires s != [] && s[|s| - 1] != sep
    ensures var r := Split(s, sep); s[|s| - 1] in r[|r| - 1]
  {
    if |s| > 1 {
      LastPartEnd(s[1..], sep);
    }
  }

  lemma {:induction false} SplitConcat(a: string, b: string, sep: char)
    ensures Split(a + [sep] + b, sep) == Split(a, sep) + Split(b, sep)
  {
    var whole := a + [sep] + b;
    if a == [] {
      assert whole[1..] == b;
    } else {
      var ra, rb := Split(a[1..], sep), Split(b, sep);
      assert Split(whole[1..], sep) == ra + rb by {
        SplitConcat(a[1..], b, sep);
        assert whole[1..] == a[1..] + [sep] + b;
      }
      if a[0] == sep {
        assert [[]] + (ra + rb) == ([[]] + ra) + rb;
      } else {
        assert [[a[0]] + ra[0]] + (ra + rb)[1..] == ([[a[0]] + ra[0]] + ra[1..]) + rb;
      }
    }
  }

  lemma {:induction false} SplitJoin(parts: seq<string>, sep: char)
    requires parts != []
    requires forall p :: p in parts ==> sep !in p
    ensures Split(Join(parts, sep), sep) == parts
  {
    SplitPlain(parts[0], sep);
    if |parts| > 1 {
      SplitJoin(parts[1..], sep);
      SplitConcat(parts[0], Join(parts[1..], sep), sep);
      assert parts == [parts[0]] + parts[1..];
    }
  }

  lemma {:induction false} JoinConcat(a: seq<string>, b: seq<string>, sep: char)
    requires a != [] && b != []
    ensures Join(a + b, sep) == Join(a, sep) + [sep] + Join(b, sep)
  {
    if |a| == 1 {
      assert (a + b)[1..] == b;
    } else {
      JoinConcat(a[1..], b, sep);
      assert (a + b)[1..] == a[1..] + b;
    }
  }

  lemma {:induction false} SplitPartsPlain(s: string, sep: char)
    ensures forall p :: p in Split(s, sep) ==> sep !in p
    ensures forall p, c :: p in Split(s, sep) && c in p ==> c in s
  {
    if s != [] {
      SplitPartsPlain(s[1..], sep);
    }
  }

  lemma SplitPartsNoSpace(s: string, sep: char)
    requires NoSpace(s)
    ensures forall p :: p in Split(s, sep) ==> NoSpace(p)
  {
    SplitPartsPlain(s, sep);
    forall p | p in Split(s, sep)
      ensures NoSpace(p)
    {
      forall i | 0 <= i < |p|
        ensures !IsSpace(p[i])
      {
        assert p[i] in s;
      }
    }
  }

  /** `strings.Fields`: the maximal runs of non-space characters. */
  function Fields(s: string): seq<string> {
    if s == [] then []
    else if IsSpace(s[0]) then Fields(s[1..])
    else
      var n := TokenLen(s);
      [s[..n]] + Fields(s[n..])
  }

  function TokenLen(s: string): (n: nat)
    ensures n <= |s|
    ensures s != [] && !IsSpace(s[0]) ==> n > 0
    ensures NoSpace(s[..n])
    ensures n < |s| ==> IsSpace(s[n])
  {
    if s == [] || IsSpace(s[0]) then 0 else
      var m := TokenLen(s[1..]);
      assert s[..m + 1] == [s[0]] + s[1..][..m];
      m + 1
  }

  lemma {:induction false} TokenLenOfToken(t: string, rest: string)
    requires NoSpace(t) && (rest == [] || IsSpace(rest[0]))
    ensures TokenLen(t + rest) == |t|
  {
    if t == [] {
      assert t + rest == rest;
    } else {
      assert (t + rest)[1..] == t[1..] + rest;
      TokenLenOfToken(t[1..], rest);
    }
  }

  lemma FieldsToken(t: string, rest: string)
    requires t != [] && NoSpace(t) && (rest == [] || IsSpace(rest[0]))
    ensures Fields(t + rest) == [t] + Fields(rest)
  {
    TokenLenOfToken(t, rest);
    assert (t + rest)[..|t|] == t && (t + rest)[|t|..] == rest;
    assert !IsSpace((t + rest)[0]);
  }

  /** Tokens joined by single spaces come back as they were. */
  lemma {:induction false} FieldsJoin(tokens: seq<string>)
    requires forall t :: t in tokens ==> t != [] && NoSpace(t)
    ensures Fields(Join(tokens, ' ')) == tokens
  {
    if |tokens| == 1 {
      assert tokens[0] in tokens;
      assert tokens[0] + [] == tokens[0];
      FieldsToken(tokens[0], []);
      assert tokens == [tokens[0]];
    } else if |tokens| > 1 {
      assert forall t :: t in tokens[1..] ==> t in tokens;
      assert tokens[0] in tokens;
      FieldsJoin(tokens[1..]);
      var rest := [' '] + Join(tokens[1..], ' ');
      assert Join(tokens, ' ') == tokens[0] + rest;
      assert rest[1..] == Join(tokens[1..], ' ');
      FieldsToken(tokens[0], rest);
      assert tokens == [tokens[0]] + tokens[1..];
    }
  }

  lemma {:induction false} NonSpaceInFields(s: string, c: char)
    requires c in s && !IsSpace(c)
    ensures exists t :: t in Fields(s) && c in t
  {
    if IsSpace(s[0]) {
      NonSpaceInFields(s[1..], c);
    } else {
      var n := TokenLen(s);
      assert s == s[..n] + s[n..];
      if c in s[..n] {
        assert s[..n] in Fields(s);
      } else {
        NonSpaceInFields(s[n..], c);
        var t :| t in Fields(s[n..]) && c in t;
        assert t in Fields(s);
      }
    }
  }

  lemma {:induction false} FieldsAreTokens(s: string)
    ensures forall t :: t in Fields(s) ==> t != [] && NoSpace(t)
    ensures forall t, c :: t in Fields(s) && c in t ==> c in s
  {
    if s != [] {
      if IsSpace(s[0]) {
        FieldsAreTokens(s[1..]);
      } else {
        FieldsAreTokens(s[TokenLen(s)..]);
      }
    }
  }

  lemma ConcatAssoc<T>(a: seq<T>, b: seq<T>, c: seq<T>)
    ensures (a + b) + c == a + (b + c)
  {
  }

  lemma FrontAndLast<T>(s: seq<T>)
    requires s != []
    ensures s == s[..|s| - 1] + [s[|s| - 1]]
  {
  }

  lemma FiveOf<T>(s: seq<T>)
    requires |s| == 5
    ensures s == [s[0], s[1], s[2], s[3], s[4]]
  {
  }

  predicate HasPrefix(s: string, p: string) {
    |p| <= |s| && s[..|p|] == p
  }

  predicate HasSuffix(s: string, p: string) {
    |p| <= |s| && s[|s| - |p|..] == p
  }

  /** `strings.IndexByte`: the first position of `c`, if any. */
  function IndexByte(s: string, c: char): (i: Option<nat>)
    ensures i.Some? ==> i.value < |s| && s[i.value] == c && c !in s[..i.value]
    ensures i.None? <==> c !in s
  {
    if s == [] then None
    else if s[0] == c then Some(0)
    else match IndexByte(s[1..], c)
         case None => None
         case Some(i) => assert s[..i + 1] == [s[0]] + s[1..][..i]; Some(i + 1)
  }

  /** The first occurrence of c is the one that nothing before holds. */
  lemma {:induction false} IndexByteOf(t: string, c: char, rest: string)
    requires c !in t
    ensures IndexByte(t + [c] + rest, c) == Some(|t|)
  {
    if t != [] {
      assert (t + [c] + rest)[1..] == t[1..] + [c] + rest;
      IndexByteOf(t[1..], c, rest);
    }
  }

  predicate IsDigit(c: char) { '0' <= c <= '9' }

  predicate AllDigits(s: string) {
    forall i :: 0 <= i < |s| ==> IsDigit(s[i])
  }

  function DigitsValue(s: string): nat
    requires AllDigits(s)
  {
    if s == [] then 0 else DigitsValue(s[..|s| - 1]) * 10 + (s[|s| - 1] as int - '0' as int)
  }

  const MAX_INT: int := 0x7FFF_FFFF_FFFF_FFFF

  /** `strconv.Atoi` on a 64-bit platform: an optional sign and decimal digits, in range. */
  function Atoi(s: string): Option<int> {
    var signed := s != [] && (s[0] == '+' || s[0] == '-');
    var body := if signed then s[1..] else s;
    if body == [] || !AllDigits(body) then None
    else
      var d: int := DigitsValue(body);
      var v := if signed && s[0] == '-' then -d else d;
      if -MAX_INT - 1 <= v <= MAX_INT then Some(v) else None
  }

  /** `strconv.Itoa` and `%d` for non-negative numbers. */
  function Itoa(n: nat): (s: string)
    ensures s != [] && AllDigits(s)
    ensures DigitsValue(s) == n
    ensures n < 10 ==> |s| == 1
    ensures n < 100 ==> |s| <= 2
  {
    if n < 10 then ['0' + n as char]
    else
      var s := Itoa(n / 10) + ['0' + (n % 10) as char];
      assert s[..|s| - 1] == Itoa(n / 10);
      s
  }

  lemma AtoiItoa(n: nat)
    requires n <= MAX_INT
    ensures Atoi(Itoa(n)) == Some(n)
  {
    var s := Itoa(n);
    assert IsDigit(s[0]);
  }

  lemma DigitsNoSpace(s: string)
    requires AllDigits(s)
    ensures NoSpace(s)
  {
    forall i | 0 <= i < |s|
      ensures !IsSpace(s[i])
    {
      assert IsDigit(s[i]);
    }
  }

  lemma DigitsTrim(s: string)
    requires AllDigits(s)
    ensures TrimSpace(s) == s
  {
    DigitsNoSpace(s);
    TrimNoSpace(s);
  }
}
