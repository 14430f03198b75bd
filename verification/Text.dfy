/** The string operations of Go's `strings` package that the panel's file healers use.
    Text is a sequence of characters; case folding is ASCII. */
module Text {

  /** unicode.IsSpace */
  predicate IsSpace(c: char) {
    || c == ' ' || '\t' <= c <= '\r' || c == '\U{85}' || c == '\U{A0}' || c == '\U{1680}'
    || '\U{2000}' <= c <= '\U{200A}' || c == '\U{2028}' || c == '\U{2029}' || c == '\U{202F}'
    || c == '\U{205F}' || c == '\U{3000}'
  }

  const SPACE: set<char> := set c: char | IsSpace(c)

  predicate HasSuffix(s: string, suffix: string) {
    |suffix| <= |s| && s[|s| - |suffix|..] == suffix
  }

  function TrimSuffix(s: string, suffix: string): string {
    if HasSuffix(s, suffix) then s[..|s| - |suffix|] else s
  }

  /** No character of `cut` occurs in `s`. */
  predicate Free(s: string, cut: set<char>) {
    forall i :: 0 <= i < |s| ==> s[i] !in cut
  }

  predicate AllIn(s: string, cut: set<char>) {
    forall i :: 0 <= i < |s| ==> s[i] in cut
  }

  lemma Assoc(a: string, b: string, c: string)
    ensures a + b + c == a + (b + c)
  {
  }

  // ---- searching -------------------------------------------------------

  /** Position of the first occurrence of `sub`, or -1. */
  function Index(s: string, sub: string): (r: int)
    ensures -1 <= r <= |s|
  {
    if sub <= s then 0
    else if s == "" then -1
    else
      var r := Index(s[1..], sub);
      if r < 0 then -1 else r + 1
  }

  lemma {:induction false} IndexFirst(s: string, sub: string)
    ensures var r := Index(s, sub);
            && (r >= 0 ==> sub <= s[r..])
            && (forall j :: 0 <= j <= |s| && (r < 0 || j < r) ==> !(sub <= s[j..]))
  {
    if sub <= s {
      assert s[0..] == s;
    } else if s != "" {
      IndexFirst(s[1..], sub);
      assert forall j :: 0 < j <= |s| ==> s[1..][j - 1..] == s[j..];
      assert s[0..] == s;
    }
  }

  predicate Contains(s: string, sub: string) {
    Index(s, sub) >= 0
  }

  lemma ContainsAt(s: string, sub: string, j: nat)
    requires j <= |s| && sub <= s[j..]
    ensures Contains(s, sub)
  {
    IndexFirst(s, sub);
  }

  lemma ContainsInMiddle(a: string, s: string, b: string, sub: string)
    requires Contains(s, sub)
    ensures Contains(a + s + b, sub)
  {
    var i := Index(s, sub);
    IndexFirst(s, sub);
    assert (a + s + b)[|a| + i..] == s[i..] + b;
    ContainsAt(a + s + b, sub, |a| + i);
  }

  function IndexChar(s: string, c: char): (r: int)
    ensures -1 <= r < |s|
  {
    if s == "" then -1
    else if s[0] == c then 0
    else
      var r := IndexChar(s[1..], c);
      if r < 0 then -1 else r + 1
  }

  lemma {:induction false} IndexCharSpec(s: string, c: char)
    ensures var r := IndexChar(s, c);
            && (r < 0 <==> c !in s)
            && (r >= 0 ==> s[r] == c && c !in s[..r])
  {
    if s != "" && s[0] != c {
      IndexCharSpec(s[1..], c);
      var r := IndexChar(s, c);
      assert s == [s[0]] + s[1..];
      assert r >= 0 ==> s[..r] == [s[0]] + s[1..][..r - 1];
    }
  }

  /** The first separator of `a + [c] + b` is the one after `a`. */
  lemma {:induction false} IndexCharFirst(a: string, c: char, b: string)
    requires c !in a
    ensures IndexChar(a + [c] + b, c) == |a|
  {
    if a != "" {
      IndexCharFirst(a[1..], c, b);
      assert (a + [c] + b)[1..] == a[1..] + [c] + b;
    }
  }

  // ---- splitting and joining -------------------------------------------

  function Split(s: string, sep: char): (parts: seq<string>)
    ensures |parts| >= 1
  {
    if s == "" then [""] else Extend(s[0], sep, Split(s[1..], sep))
  }

  /** Puts one more character in front of text already split into `parts`. */
  function Extend(c: char, sep: char, parts: seq<string>): (r: seq<string>)
    requires |parts| >= 1
    ensures |r| >= 1
  {
    if c == sep then [""] + parts else [[c] + parts[0]] + parts[1..]
  }

  function Join(parts: seq<string>, sep: string): string {
    if |parts| == 0 then ""
    else if |parts| == 1 then parts[0]
    else parts[0] + sep + Join(parts[1..], sep)
  }

  lemma JoinCons(a: string, rest: seq<string>, sep: string)
    requires |rest| >= 1
    ensures Join([a] + rest, sep) == a + sep + Join(rest, sep)
  {
    assert ([a] + rest)[1..] == rest;
  }

  lemma JoinHead(c: char, p: string, rest: seq<string>, sep: string)
    ensures Join([[c] + p] + rest, sep) == [c] + Join([p] + rest, sep)
  {
    if rest != [] {
      JoinCons([c] + p, rest, sep);
      JoinCons(p, rest, sep);
      var tail := Join(rest, sep);
      assert [c] + p + sep + tail == [c] + (p + sep + tail);
    }
  }

  lemma {:induction false} JoinSplit(s: string, sep: char)
    ensures Join(Split(s, sep), [sep]) == s
  {
    if s != "" {
      var parts := Split(s[1..], sep);
      JoinSplit(s[1..], sep);
      if s[0] == sep {
        JoinCons("", parts, [sep]);
        assert "" + [sep] == [s[0]];
      } else {
        JoinHead(s[0], parts[0], parts[1..], [sep]);
        assert [parts[0]] + parts[1..] == parts;
      }
      assert s == [s[0]] + s[1..];
    }
  }

  lemma {:induction false} SplitFree(s: string, sep: char)
    ensures forall p <- Split(s, sep) :: sep !in p
  {
    if s != "" {
      SplitFree(s[1..], sep);
    }
  }

  lemma {:induction false} SplitNone(s: string, sep: char)
    requires sep !in s
    ensures Split(s, sep) == [s]
  {
    if s != "" {
      SplitNone(s[1..], sep);
      assert [s[0]] + s[1..] == s;
    }
  }

  lemma ExtendConcat(c: char, sep: char, p: seq<string>, q: seq<string>)
    requires |p| >= 1
    ensures Extend(c, sep, p + q) == Extend(c, sep, p) + q
  {
    assert (p + q)[1..] == p[1..] + q && (p + q)[0] == p[0];
  }

  lemma {:induction false} SplitConcat(a: string, b: string, sep: char)
    ensures Split(a + [sep] + b, sep) == Split(a, sep) + Split(b, sep)
  {
    if a == "" {
      assert a + [sep] + b == [sep] + b;
      assert ([sep] + b)[1..] == b;
    } else {
      SplitConcat(a[1..], b, sep);
      assert (a + [sep] + b)[1..] == a[1..] + [sep] + b;
      ExtendConcat(a[0], sep, Split(a[1..], sep), Split(b, sep));
    }
  }

  lemma {:induction false} SplitJoin(parts: seq<string>, sep: char)
    requires |parts| > 0
    requires forall p <- parts :: sep !in p
    ensures Split(Join(parts, [sep]), sep) == parts
  {
    SplitNone(parts[0], sep);
    if |parts| > 1 {
      SplitJoin(parts[1..], sep);
      SplitConcat(parts[0], Join(parts[1..], [sep]), sep);
      assert [parts[0]] + parts[1..] == parts;
    }
  }

  /** The parts of a text are pieces of it. */
  lemma {:induction false} SplitPart(s: string, sep: char, p: string) returns (a: string, b: string)
    requires p in Split(s, sep)
    ensures s == a + p + b
  {
    a, b := "", s;
    if s != "" {
      var parts := Split(s[1..], sep);
      assert s == [s[0]] + s[1..];
      if p in parts && (s[0] == sep || p in parts[1..]) {
        a, b := SplitPart(s[1..], sep, p);
        a := [s[0]] + a;
      } else if s[0] != sep {
        b := SplitFirst(s[1..], sep);
      }
    }
  }

  lemma {:induction false} SplitFirst(s: string, sep: char) returns (b: string)
    ensures s == Split(s, sep)[0] + b
  {
    b := s;
    if s != "" && s[0] != sep {
      b := SplitFirst(s[1..], sep);
      assert s == [s[0]] + s[1..];
    }
  }

  lemma {:induction false} JoinConcat(a: seq<string>, b: seq<string>, sep: string)
    requires |a| > 0 && |b| > 0
    ensures Join(a + b, sep) == Join(a, sep) + sep + Join(b, sep)
  {
    if |a| == 1 {
      assert (a + b)[1..] == b;
    } else {
      JoinConcat(a[1..], b, sep);
      assert (a + b)[1..] == a[1..] + b;
    }
  }

  lemma {:induction false} JoinFree(parts: seq<string>, sep: string, cut: set<char>)
    requires Free(sep, cut) && forall p <- parts :: Free(p, cut)
    ensures Free(Join(parts, sep), cut)
  {
    if |parts| > 0 {
      assert parts[0] in parts;
      JoinFree(parts[1..], sep, cut);
    }
  }

  // ---- trimming --------------------------------------------------------

  /** Number of leading characters in `cut`. */
  function LeadLen(s: string, cut: set<char>): (n: nat)
    ensures n <= |s|
  {
    if s != "" && s[0] in cut then LeadLen(s[1..], cut) + 1 else 0
  }

  lemma {:induction false} LeadLenSpec(s: string, cut: set<char>)
    ensures var n := LeadLen(s, cut); AllIn(s[..n], cut) && (n < |s| ==> s[n] !in cut)
  {
    if s != "" && s[0] in cut {
      LeadLenSpec(s[1..], cut);
      assert s[..LeadLen(s, cut)] == [s[0]] + s[1..][..LeadLen(s[1..], cut)];
    }
  }

  function TrimLeft(s: string, cut: set<char>): string {
    s[LeadLen(s, cut)..]
  }

  /** Length of what remains once trailing characters of `cut` are dropped. */
  function BodyLen(s: string, cut: set<char>): (n: nat)
    ensures n <= |s|
  {
    if s != "" && s[|s| - 1] in cut then BodyLen(s[..|s| - 1], cut) else |s|
  }

  lemma {:induction false} BodyLenSpec(s: string, cut: set<char>)
    ensures var n := BodyLen(s, cut); AllIn(s[n..], cut) && (n > 0 ==> s[n - 1] !in cut)
  {
    if s != "" && s[|s| - 1] in cut {
      BodyLenSpec(s[..|s| - 1], cut);
      var n := BodyLen(s, cut);
      assert s[n..] == s[..|s| - 1][n..] + [s[|s| - 1]];
    }
  }

  function TrimRight(s: string, cut: set<char>): string {
    s[..BodyLen(s, cut)]
  }

  function Trim(s: string, cut: set<char>): string {
    TrimRight(TrimLeft(s, cut), cut)
  }

  function TrimSpace(s: string): string {
    Trim(s, SPACE)
  }

  /** `s` has no character of `cut` at either end. */
  predicate Bare(s: string, cut: set<char>) {
    s != "" ==> s[0] !in cut && s[|s| - 1] !in cut
  }

  lemma TrimLeftPad(pad: string, s: string, cut: set<char>)
    requires AllIn(pad, cut)
    requires s != "" ==> s[0] !in cut
    ensures TrimLeft(pad + s, cut) == s
  {
    assert (pad + s)[..|pad|] == pad;
    LeadLenIs(pad + s, cut, |pad|);
  }

  lemma {:induction false} LeadLenIs(s: string, cut: set<char>, n: nat)
    requires n <= |s| && (n < |s| ==> s[n] !in cut) && AllIn(s[..n], cut)
    ensures LeadLen(s, cut) == n
  {
    if n > 0 {
      assert s[..n][0] == s[0] && s[1..][..n - 1] == s[..n][1..];
      LeadLenIs(s[1..], cut, n - 1);
    }
  }

  lemma TrimRightPad(s: string, pad: string, cut: set<char>)
    requires AllIn(pad, cut)
    requires s != "" ==> s[|s| - 1] !in cut
    ensures TrimRight(s + pad, cut) == s
  {
    assert (s + pad)[|s|..] == pad;
    BodyLenIs(s + pad, cut, |s|);
  }

  lemma {:induction false} BodyLenIs(s: string, cut: set<char>, n: nat)
    requires n <= |s| && (n > 0 ==> s[n - 1] !in cut) && AllIn(s[n..], cut)
    ensures BodyLen(s, cut) == n
  {
    var m := |s| - 1;
    if n < |s| {
      assert s[n..][m - n] == s[m] && s[..m][n..] == s[n..][..m - n];
      BodyLenIs(s[..m], cut, n);
    }
  }

  lemma {:induction false} BodyReaches(s: string, cut: set<char>, k: nat)
    requires k < |s| && s[k] !in cut
    ensures BodyLen(s, cut) > k
  {
    if s[|s| - 1] in cut {
      BodyReaches(s[..|s| - 1], cut, k);
    }
  }

  /** Trimming recovers a bare string from any padding. */
  lemma TrimPad(left: string, s: string, right: string, cut: set<char>)
    requires AllIn(left, cut) && AllIn(right, cut) && Bare(s, cut)
    ensures Trim(left + s + right, cut) == s
  {
    if s == "" {
      TrimLeftPad(left + right, "", cut);
      assert left + s + right == left + right + "";
    } else {
      assert left + s + right == left + (s + right);
      TrimLeftPad(left, s + right, cut);
      TrimRightPad(s, right, cut);
    }
  }

  lemma TrimBare(s: string, cut: set<char>)
    ensures Bare(Trim(s, cut), cut)
    ensures Bare(s, cut) ==> Trim(s, cut) == s
  {
    var l := TrimLeft(s, cut);
    LeadLenSpec(s, cut);
    BodyLenSpec(l, cut);
    if Bare(s, cut) {
      TrimPad("", s, "", cut);
      assert "" + s + "" == s;
    }
  }

  /** A trimmed string is its source minus padding. */
  lemma TrimSplits(s: string, cut: set<char>) returns (left: string, right: string)
    ensures s == left + Trim(s, cut) + right && AllIn(left, cut) && AllIn(right, cut)
  {
    var l := TrimLeft(s, cut);
    LeadLenSpec(s, cut);
    BodyLenSpec(l, cut);
    left, right := s[..LeadLen(s, cut)], l[BodyLen(l, cut)..];
  }

  // ---- fields ----------------------------------------------------------

  /** Length of the leading run of characters outside SPACE. */
  function TokenLen(s: string): (n: nat)
    ensures n <= |s|
    ensures s != "" && s[0] !in SPACE ==> n > 0
  {
    if s == "" || s[0] in SPACE then 0 else TokenLen(s[1..]) + 1
  }

  lemma {:induction false} TokenLenSpec(s: string)
    ensures var n := TokenLen(s); Free(s[..n], SPACE) && (n < |s| ==> s[n] in SPACE)
  {
    if s != "" && s[0] !in SPACE {
      TokenLenSpec(s[1..]);
      assert s[..TokenLen(s)] == [s[0]] + s[1..][..TokenLen(s[1..])];
    }
  }

  /** A token is a nonempty string without spaces. */
  predicate Token(s: string) {
    s != "" && Free(s, SPACE)
  }

  /** strings.Fields: the maximal runs of non-space characters. */
  function Fields(s: string): seq<string>
    decreases |s|
  {
    var t := TrimLeft(s, SPACE);
    if t == "" then []
    else
      var n := TokenLen(t);
      [t[..n]] + Fields(t[n..])
  }

  lemma {:induction false} FieldsTokens(s: string)
    ensures forall t <- Fields(s) :: Token(t)
    decreases |s|
  {
    var t := TrimLeft(s, SPACE);
    LeadLenSpec(s, SPACE);
    TokenLenSpec(t);
    if t != "" {
      FieldsTokens(t[TokenLen(t)..]);
    }
  }

  lemma {:induction false} TokenLenOf(tok: string, rest: string)
    requires Free(tok, SPACE) && (rest != "" ==> rest[0] in SPACE)
    ensures TokenLen(tok + rest) == |tok|
  {
    if tok == "" {
      assert tok + rest == rest;
    } else {
      assert (tok + rest)[1..] == tok[1..] + rest;
      TokenLenOf(tok[1..], rest);
    }
  }

  lemma FieldsCons(pad: string, tok: string, rest: string)
    requires AllIn(pad, SPACE) && Token(tok) && (rest != "" ==> rest[0] in SPACE)
    ensures Fields(pad + tok + rest) == [tok] + Fields(rest)
  {
    var t := tok + rest;
    assert pad + tok + rest == pad + t;
    TrimLeftPad(pad, t, SPACE);
    TokenLenOf(tok, rest);
    assert t[..|tok|] == tok && t[|tok|..] == rest;
  }

  lemma Regroup(a: string, b: string, c: string, d: string, e: string)
    ensures a + (b + c + d) + e == a + b + (c + d + e)
  {
  }

  lemma FieldsBlank(s: string)
    requires AllIn(s, SPACE)
    ensures Fields(s) == []
  {
    assert s[..|s|] == s;
    LeadLenIs(s, SPACE, |s|);
  }

  /** Fields reads back tokens joined by single spaces, whatever surrounds them. */
  lemma {:induction false} FieldsJoin(pad: string, tokens: seq<string>, tail: string)
    requires AllIn(pad, SPACE) && AllIn(tail, SPACE) && forall t <- tokens :: Token(t)
    ensures Fields(pad + Join(tokens, " ") + tail) == tokens
    decreases |tokens|
  {
    hide Fields;
    if |tokens| == 0 {
      FieldsBlank(pad + Join(tokens, " ") + tail);
    } else if |tokens| == 1 {
      FieldsCons(pad, tokens[0], tail);
      FieldsBlank(tail);
    } else {
      var rest := Join(tokens[1..], " ");
      FieldsJoin(" ", tokens[1..], tail);
      Regroup(pad, tokens[0], " ", rest, tail);
      FieldsCons(pad, tokens[0], " " + rest + tail);
    }
  }

  lemma FieldsNone(s: string)
    ensures Fields(s) == [] <==> LeadLen(s, SPACE) == |s|
  {
  }

  lemma FirstField(s: string) returns (pad: string, tok: string, rest: string)
    ensures Fields(s) == [] ==> AllIn(s, SPACE)
    ensures Fields(s) != [] ==> |rest| < |s| && s == pad + tok + rest
    ensures Fields(s) != [] ==> AllIn(pad, SPACE) && Token(tok) && (rest != "" ==> rest[0] in SPACE)
  {
    FieldsNone(s);
    LeadLenSpec(s, SPACE);
    pad, tok, rest := Cut(s, LeadLen(s, SPACE));
    assert LeadLen(s, SPACE) == |s| ==> pad == s;
  }

  lemma Cut(s: string, k: nat) returns (pad: string, tok: string, rest: string)
    requires k <= |s| && (k < |s| ==> s[k] !in SPACE)
    ensures pad == s[..k] && s == pad + tok + rest
    ensures k < |s| ==> |rest| < |s| && Token(tok) && (rest != "" ==> rest[0] in SPACE)
  {
    var t := s[k..];
    var n := TokenLen(t);
    TokenLenSpec(t);
    pad, tok, rest := s[..k], t[..n], t[n..];
  }

  /** Leading and trailing spaces do not matter to Fields. */
  lemma {:induction false} FieldsTail(s: string, tail: string)
    requires AllIn(tail, SPACE)
    ensures Fields(s + tail) == Fields(s)
    decreases |s|
  {
    hide Fields;
    var pad, tok, rest := FirstField(s);
    if Fields(s) == [] {
      FieldsBlank(s + tail);
    } else {
      FieldsTail(rest, tail);
      Assoc(pad + tok, rest, tail);
      FieldsCons(pad, tok, rest);
      FieldsCons(pad, tok, rest + tail);
    }
  }

  lemma FieldsHead(pad: string, s: string)
    requires AllIn(pad, SPACE) && (s != "" ==> s[0] !in SPACE)
    ensures Fields(pad + s) == Fields(s)
  {
    TrimLeftPad(pad, s, SPACE);
    TrimLeftPad("", s, SPACE);
    assert "" + s == s;
  }

  lemma FieldsTrim(s: string)
    ensures Fields(TrimSpace(s)) == Fields(s)
  {
    var left, right := TrimSplits(s, SPACE);
    var t := TrimSpace(s);
    TrimBare(s, SPACE);
    assert s == left + (t + right);
    if t == "" {
      FieldsBlank(s);
      FieldsBlank(t);
    } else {
      FieldsHead(left, t + right);
      FieldsTail(t, right);
    }
  }

  /** awk's `$1` .. `$NF` re-emitted with single spaces. */
  function SingleSpaced(s: string): string {
    Join(Fields(s), " ")
  }

  lemma SingleSpacedIdempotent(s: string)
    ensures SingleSpaced(SingleSpaced(s)) == SingleSpaced(s)
  {
    FieldsTokens(s);
    FieldsJoin("", Fields(s), "");
    assert "" + SingleSpaced(s) + "" == SingleSpaced(s);
  }

  // ---- case ------------------------------------------------------------

  function LowerChar(c: char): char {
    if 'A' <= c <= 'Z' then c - 'A' + 'a' else c
  }

  function ToLower(s: string): string {
    seq(|s|, i requires 0 <= i < |s| => LowerChar(s[i]))
  }

  lemma ToLowerIdempotent(s: string)
    ensures ToLower(ToLower(s)) == ToLower(s)
  {
  }

  lemma ToLowerConcat(a: string, b: string)
    ensures ToLower(a + b) == ToLower(a) + ToLower(b)
  {
  }

  // ---- the same, letter by letter --------------------------------------

  /** Equal, or an ASCII letter in its two cases. */
  predicate SameLetter(a: char, b: char) {
    || a == b
    || ('a' <= a <= 'z' && a as int == b as int + 32)
    || ('a' <= b <= 'z' && b as int == a as int + 32)
  }

  predicate SameUpToCase(s: string, t: string) {
    |s| == |t| && forall i :: 0 <= i < |s| ==> SameLetter(s[i], t[i])
  }

  /** No capital letter. */
  predicate Small(s: string) {
    forall i :: 0 <= i < |s| ==> !('A' <= s[i] <= 'Z')
  }

  lemma LowerCharSame(a: char, b: char)
    ensures LowerChar(a) == LowerChar(b) <==> SameLetter(a, b)
    ensures !('A' <= LowerChar(a) <= 'Z') && SameLetter(LowerChar(a), a)
  {
  }

  /** Lowering forgets the case of letters and nothing else. */
  lemma LowerSameIff(s: string, t: string)
    ensures ToLower(s) == ToLower(t) <==> SameUpToCase(s, t)
    ensures Small(ToLower(s)) && SameUpToCase(ToLower(s), s)
    ensures Small(s) ==> ToLower(s) == s
  {
    forall i | 0 <= i < |s|
      ensures !('A' <= ToLower(s)[i] <= 'Z') && SameLetter(ToLower(s)[i], s[i])
    {
      LowerCharSame(s[i], s[i]);
    }
    if |s| == |t| {
      forall i | 0 <= i < |s|
        ensures ToLower(s)[i] == ToLower(t)[i] <==> SameLetter(s[i], t[i])
      {
        LowerCharSame(s[i], t[i]);
      }
    }
  }

  predicate SaysAt(s: string, phrase: string, i: nat) {
    i + |phrase| <= |s| && SameUpToCase(s[i..i + |phrase|], phrase)
  }

  /** The phrase stands somewhere in the text, in whatever case. */
  ghost predicate Says(s: string, phrase: string) {
    exists i: nat :: SaysAt(s, phrase, i)
  }

  lemma LowerSlice(s: string, i: nat, n: nat)
    requires i + n <= |s|
    ensures ToLower(s)[i..i + n] == ToLower(s[i..i + n])
  {
  }

  lemma SaysAtIff(s: string, phrase: string, i: nat)
    requires Small(phrase) && i <= |s|
    ensures phrase <= ToLower(s)[i..] <==> SaysAt(s, phrase, i)
  {
    hide ToLower, Small;
    LowerLength(s);
    LowerSameIff(phrase, phrase);
    if i + |phrase| <= |s| {
      var x := s[i..i + |phrase|];
      LowerSlice(s, i, |phrase|);
      LowerSameIff(x, phrase);
      assert ToLower(s)[i..][..|phrase|] == ToLower(s)[i..i + |phrase|];
    }
  }

  lemma LowerLength(s: string)
    ensures |ToLower(s)| == |s|
  {
  }

  /** Looking for a phrase in the lowered text is looking for it in any case. */
  lemma SaysIff(s: string, phrase: string)
    requires Small(phrase)
    ensures Contains(ToLower(s), phrase) <==> Says(s, phrase)
  {
    hide ToLower, Small, SaysAt;
    var lower := ToLower(s);
    LowerLength(s);
    IndexFirst(lower, phrase);
    if Contains(lower, phrase) {
      SaysAtIff(s, phrase, Index(lower, phrase));
    }
    if i: nat :| SaysAt(s, phrase, i) {
      SaysInside(s, phrase, i);
      SaysAtIff(s, phrase, i);
      ContainsAt(lower, phrase, i);
    }
  }

  lemma SaysInside(s: string, phrase: string, i: nat)
    requires SaysAt(s, phrase, i)
    ensures i <= |s|
  {
  }

  lemma SaysAround(a: string, s: string, b: string, phrase: string)
    requires Says(s, phrase)
    ensures Says(a + s + b, phrase)
  {
    var i: nat :| SaysAt(s, phrase, i);
    assert (a + s + b)[|a| + i..|a| + i + |phrase|] == s[i..i + |phrase|];
    assert SaysAt(a + s + b, phrase, |a| + i);
  }

  /** The usual blanks are spaces; visible ASCII characters are not. */
  lemma SpaceChars(c: char)
    ensures c in {' ', '\t', '\n', '\r'} ==> c in SPACE
    ensures '!' <= c <= '~' ==> c !in SPACE
  {
  }
}
