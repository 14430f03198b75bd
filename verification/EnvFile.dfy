/** The panel's `.env` file: rewriting some keys in place and reading the file back. */
module EnvFile {
  import opened Text
  import opened Lists
  import opened Options

  const QUOTES: set<char> := {'"', '\''}

  /** The key and the raw value of a line; comments, blanks and lines without a key have none. */
  function Assignment(line: string): Option<(string, string)> {
    var t := TrimSpace(line);
    var eq := IndexChar(t, '=');
    if t == "" || t[0] == '#' || eq <= 0 then None
    else Some((TrimSpace(t[..eq]), t[eq + 1..]))
  }

  // ---- reading ---------------------------------------------------------

  function Binding(line: string): map<string, string> {
    match Assignment(line)
    case None => map[]
    case Some((k, raw)) => map[k := Trim(TrimSpace(raw), QUOTES)]
  }

  function Environment(content: string): map<string, string> {
    Merge(Binding, Split(content, '\n'))
  }

  lemma ReadOneMore(lines: seq<string>, i: nat)
    requires i < |lines|
    ensures Merge(Binding, lines[..i + 1]) == Merge(Binding, lines[..i]) + Binding(lines[i])
  {
    assert lines[..i + 1] == lines[..i] + [lines[i]];
    MergeSnoc(Binding, lines[..i], lines[i]);
  }

  method ReadEnv(content: string) returns (out: map<string, string>)
    ensures out == Environment(content)
  {
    hide Assignment, Trim, TrimSpace, Split;
    out := map[];
    var lines := Split(content, '\n');
    for i := 0 to |lines|
      invariant out == Merge(Binding, lines[..i])
    {
      ReadOneMore(lines, i);
      var a := Assignment(lines[i]);
      if a.Some? {
        var k, v := a.value.0, Trim(TrimSpace(a.value.1), QUOTES);
        PutIsUnion(out, k, v);
        out := out[k := v];
      }
    }
    assert lines[..|lines|] == lines;
  }

  // ---- writing ---------------------------------------------------------

  function Rewrite(line: string, updates: map<string, string>): seq<string> {
    match Assignment(line)
    case None => [line]
    case Some((k, _)) => if k in updates then [k + "=" + updates[k]] else [line]
  }

  function Rewriter(updates: map<string, string>): string -> seq<string> {
    line => Rewrite(line, updates)
  }

  function Appender(updates: map<string, string>): string -> seq<string> {
    k => if k in updates then [k + "=" + updates[k]] else []
  }

  /** `order` lists exactly the keys of `missing`, once each: one of the orders a map can be walked in. */
  ghost predicate WalkOf(order: seq<string>, missing: set<string>) {
    && (forall k :: k in order <==> k in missing)
    && (forall i, j :: 0 <= i < j < |order| ==> order[i] != order[j])
  }

  function NewLines(lines: seq<string>, updates: map<string, string>, order: seq<string>): seq<string> {
    FlatMap(Rewriter(updates), lines) + FlatMap(Appender(updates), order)
  }

  function EnvText(content: string, updates: map<string, string>, order: seq<string>): string {
    Join(NewLines(Split(content, '\n'), updates, order), "\n")
  }

  function Missing(content: string, updates: map<string, string>): set<string> {
    updates.Keys - Environment(content).Keys
  }

  lemma {:induction false} RewriteAt(lines: seq<string>, updates: map<string, string>)
    ensures |FlatMap(Rewriter(updates), lines)| == |lines|
    ensures forall i :: 0 <= i < |lines| ==> [FlatMap(Rewriter(updates), lines)[i]] == Rewrite(lines[i], updates)
  {
    hide Rewrite;
    if lines != [] {
      RewriteAt(lines[1..], updates);
      RewriteOne(lines[0], updates);
      var rest := FlatMap(Rewriter(updates), lines[1..]);
      var first := Rewrite(lines[0], updates)[0];
      assert FlatMap(Rewriter(updates), lines) == [first] + rest;
      assert forall i :: 0 < i < |lines| ==> lines[1..][i - 1] == lines[i];
    }
  }

  lemma RewriteOne(line: string, updates: map<string, string>)
    ensures |Rewrite(line, updates)| == 1 && Rewrite(line, updates) == [Rewrite(line, updates)[0]]
  {
    hide Assignment;
  }

  lemma SameLines(lines: seq<string>, orig: seq<string>, updates: map<string, string>)
    requires |lines| == |orig|
    requires forall i :: 0 <= i < |lines| ==> [lines[i]] == Rewrite(orig[i], updates)
    ensures lines == FlatMap(Rewriter(updates), orig)
  {
    RewriteAt(orig, updates);
    var r := FlatMap(Rewriter(updates), orig);
    forall i | 0 <= i < |lines|
      ensures lines[i] == r[i]
    {
      assert [lines[i]] == [r[i]];
    }
  }

  lemma RewriteLine(line: string, updates: map<string, string>)
    ensures match Assignment(line)
            case None => Binding(line) == map[] && Rewrite(line, updates) == [line]
            case Some((k, _)) =>
              && Binding(line).Keys == {k}
              && Rewrite(line, updates) == if k in updates then [k + "=" + updates[k]] else [line]
  {
    hide Assignment;
  }

  method RewriteInPlace(orig: seq<string>, updates: map<string, string>) returns (lines: seq<string>, seen: set<string>)
    ensures lines == FlatMap(Rewriter(updates), orig)
    ensures seen == updates.Keys * Merge(Binding, orig).Keys
  {
    hide Assignment, Rewrite, Binding;
    lines, seen := orig, {};
    for i := 0 to |lines|
      invariant |lines| == |orig|
      invariant forall j :: 0 <= j < i ==> [lines[j]] == Rewrite(orig[j], updates)
      invariant forall j :: i <= j < |orig| ==> lines[j] == orig[j]
      invariant seen == updates.Keys * Merge(Binding, orig[..i]).Keys
    {
      ReadOneMore(orig, i);
      RewriteLine(orig[i], updates);
      var a := Assignment(lines[i]);
      if a.Some? && a.value.0 in updates {
        var key := a.value.0;
        lines := lines[i := key + "=" + updates[key]];
        seen := seen + {key};
      }
    }
    assert orig[..|orig|] == orig;
    SameLines(lines, orig, updates);
  }

  method AppendMissing(start: seq<string>, updates: map<string, string>,
                       missing: set<string>) returns (lines: seq<string>)
    requires missing <= updates.Keys
    ensures exists order :: WalkOf(order, missing) && lines == start + FlatMap(Appender(updates), order)
  {
    lines := start;
    ghost var order := [];
    var todo := missing;
    while todo != {}
      invariant todo <= missing
      invariant WalkOf(order, missing - todo)
      invariant lines == start + FlatMap(Appender(updates), order)
      decreases |todo|
    {
      var k :| k in todo;
      FlatMapSnoc(Appender(updates), order, k);
      lines := lines + [k + "=" + updates[k]];
      order := order + [k];
      todo := todo - {k};
    }
  }

  /** The lines are rewritten in place one by one; keys found nowhere are appended, in whatever order the map is
      walked. */
  method SetEnvLines(content: string, updates: map<string, string>) returns (text: string)
    ensures exists order :: WalkOf(order, Missing(content, updates)) && text == EnvText(content, updates, order)
  {
    var lines := Split(content, '\n');
    var fixed, seen := RewriteInPlace(lines, updates);
    var all := AppendMissing(fixed, updates, updates.Keys - seen);
    text := Join(all, "\n");
    ghost var order :| WalkOf(order, updates.Keys - seen) && all == fixed + FlatMap(Appender(updates), order);
    assert text == EnvText(content, updates, order);
  }

  /** The file on disk; None when it cannot be read. */
  class Store {
    var content: Option<string>

    /** A failed temporary write or rename leaves the file alone. */
    method SetEnvVars(updates: map<string, string>, tmpWritten: bool, renamed: bool) returns (ok: bool)
      modifies this
      ensures ok == (old(content).Some? && tmpWritten && renamed)
      ensures !ok ==> content == old(content)
      ensures ok ==> exists order :: && WalkOf(order, Missing(old(content).value, updates))
                                     && content == Some(EnvText(old(content).value, updates, order))
    {
      if content.None? {
        return false;
      }
      var text := SetEnvLines(content.value, updates);
      ok := tmpWritten && renamed;
      if ok {
        content := Some(text);
      }
    }
  }

  // ---- what comes back -------------------------------------------------

  /** Keys and values that survive a line of the file. */
  predicate Proper(k: string, v: string) {
    && k != "" && Bare(k, SPACE) && k[0] != '#' && '=' !in k
    && Bare(v, SPACE) && Bare(v, QUOTES)
  }

  lemma KeyThenValue(k: string, v: string)
    requires k != "" && Bare(k, SPACE) && k[0] != '#' && '=' !in k && Bare(v, SPACE)
    ensures Assignment(k + "=" + v) == Some((k, v))
  {
    var line := k + "=" + v;
    assert line[|line| - 1] == if v == "" then '=' else v[|v| - 1];
    TrimBare(line, SPACE);
    IndexCharFirst(k, '=', v);
    assert line[..|k|] == k && line[|k| + 1..] == v;
    TrimBare(k, SPACE);
  }

  lemma TrimShorter(s: string, cut: set<char>)
    ensures |Trim(s, cut)| <= |s|
    ensures |Trim(s, cut)| == |s| ==> Trim(s, cut) == s
  {
  }

  lemma ProperReadsBack(k: string, v: string)
    requires Proper(k, v)
    ensures Binding(k + "=" + v) == map[k := v]
  {
    KeyThenValue(k, v);
    TrimBare(v, SPACE);
    TrimBare(v, QUOTES);
  }

  /** Parsing can only drop characters, so a pair that reads back lost none. */
  lemma NothingDropped(line: string, t: string, eq: nat, k: string, v: string)
    requires line == k + "=" + v && t == TrimSpace(line) && eq < |t|
    requires k == TrimSpace(t[..eq]) && v == Trim(TrimSpace(t[eq + 1..]), QUOTES)
    ensures t == line && k == t[..eq] && v == TrimSpace(t[eq + 1..]) == t[eq + 1..]
  {
    TrimShorter(line, SPACE);
    TrimShorter(t[..eq], SPACE);
    TrimShorter(t[eq + 1..], SPACE);
    TrimShorter(TrimSpace(t[eq + 1..]), QUOTES);
  }

  lemma ReadsBackOnlyProper(k: string, v: string)
    requires Binding(k + "=" + v) == map[k := v]
    ensures Proper(k, v)
  {
    var line := k + "=" + v;
    var t := TrimSpace(line);
    var eq := IndexChar(t, '=');
    assert k in Binding(line) && Binding(line)[k] == v;
    NothingDropped(line, t, eq, k, v);
    IndexCharSpec(t, '=');
    TrimBare(line, SPACE);
    TrimBare(t[..eq], SPACE);
    TrimBare(t[eq + 1..], SPACE);
    TrimBare(v, QUOTES);
    TrimBare(TrimSpace(t[eq + 1..]), QUOTES);
  }

  lemma LineReadsBackIffProper(k: string, v: string)
    ensures Binding(k + "=" + v) == map[k := v] <==> Proper(k, v)
  {
    if Proper(k, v) {
      ProperReadsBack(k, v);
    } else if Binding(k + "=" + v) == map[k := v] {
      ReadsBackOnlyProper(k, v);
    }
  }

  lemma TrimPieces(s: string, cut: set<char>, c: char)
    requires c !in s
    ensures c !in Trim(s, cut)
  {
    var left, right := TrimSplits(s, cut);
  }

  lemma SlicesFree(s: string, k: nat, c: char)
    requires k <= |s| && c !in s
    ensures c !in s[..k] && c !in s[k..]
  {
  }

  /** A line without a newline binds a key and a value without one. */
  lemma BindingOneLine(line: string)
    requires '\n' !in line
    ensures forall k <- Binding(line) :: '\n' !in k && '\n' !in Binding(line)[k]
  {
    hide Trim;
    var t := TrimSpace(line);
    var eq := IndexChar(t, '=');
    TrimPieces(line, SPACE, '\n');
    if eq > 0 {
      SlicesFree(t, eq, '\n');
      SlicesFree(t, eq + 1, '\n');
      TrimPieces(t[..eq], SPACE, '\n');
      TrimPieces(t[eq + 1..], SPACE, '\n');
      TrimPieces(TrimSpace(t[eq + 1..]), QUOTES, '\n');
    }
  }

  lemma {:induction false} BindingsOneLine(lines: seq<string>)
    requires forall l <- lines :: '\n' !in l
    ensures forall k <- Merge(Binding, lines) :: '\n' !in k && '\n' !in Merge(Binding, lines)[k]
  {
    hide Binding;
    if lines != [] {
      HeadIn(lines);
      BindingOneLine(lines[0]);
      BindingsOneLine(lines[1..]);
    }
  }

  /** A file holding one written pair reads back as that pair exactly when the pair is proper and in one line. */
  lemma ReadsBackIffProper(k: string, v: string)
    ensures Environment(k + "=" + v) == map[k := v] <==> Proper(k, v) && '\n' !in k && '\n' !in v
  {
    hide Binding, Proper;
    var text := k + "=" + v;
    LineReadsBackIffProper(k, v);
    if '\n' !in text {
      SplitNone(text, '\n');
      MergeOne(Binding, text);
    } else {
      SplitFree(text, '\n');
      BindingsOneLine(Split(text, '\n'));
      assert k in map[k := v] && map[k := v][k] == v;
    }
  }

  ghost predicate ProperUpdates(updates: map<string, string>) {
    forall k <- updates :: Proper(k, updates[k]) && '\n' !in k && '\n' !in updates[k]
  }

  lemma RewriteMeaning(line: string, updates: map<string, string>)
    requires ProperUpdates(updates)
    ensures Merge(Binding, Rewrite(line, updates)) == Override(Binding(line), updates)
  {
    var a := Assignment(line);
    if a.Some? && a.value.0 in updates {
      var k := a.value.0;
      ProperReadsBack(k, updates[k]);
      MergeOne(Binding, k + "=" + updates[k]);
    } else {
      MergeOne(Binding, line);
    }
  }

  lemma RewriteFree(line: string, updates: map<string, string>)
    requires ProperUpdates(updates) && '\n' !in line
    ensures forall l <- Rewrite(line, updates) :: '\n' !in l
  {
  }

  lemma {:induction false} RewrittenMeaning(lines: seq<string>, updates: map<string, string>)
    requires ProperUpdates(updates)
    ensures Merge(Binding, FlatMap(Rewriter(updates), lines)) == Override(Merge(Binding, lines), updates)
  {
    hide Rewrite, Binding;
    if lines != [] {
      var head, rest := lines[0], lines[1..];
      var f := Rewriter(updates);
      RewrittenMeaning(rest, updates);
      RewriteMeaning(head, updates);
      OverrideUnion(Binding(head), Merge(Binding, rest), updates);
      MergeConcat(Binding, f(head), FlatMap(f, rest));
    }
  }

  lemma AppendMeaning(k: string, updates: map<string, string>)
    requires ProperUpdates(updates)
    ensures Merge(Binding, Appender(updates)(k)) == if k in updates then map[k := updates[k]] else map[]
  {
    if k in updates {
      ProperReadsBack(k, updates[k]);
      MergeOne(Binding, k + "=" + updates[k]);
    }
  }

  lemma {:induction false} AppendedMeaning(order: seq<string>, updates: map<string, string>)
    requires ProperUpdates(updates)
    ensures Merge(Binding, FlatMap(Appender(updates), order)) == Pick(updates, order)
  {
    hide Binding, Appender;
    if order != [] {
      var k, rest, f := order[0], order[1..], Appender(updates);
      AppendedMeaning(rest, updates);
      AppendMeaning(k, updates);
      MergeConcat(Binding, f(k), FlatMap(f, rest));
      PickCons(updates, k, rest);
      assert [k] + rest == order;
    }
  }

  lemma NewLinesFree(lines: seq<string>, updates: map<string, string>, order: seq<string>)
    requires ProperUpdates(updates) && lines != [] && forall l <- lines :: '\n' !in l
    ensures NewLines(lines, updates, order) != [] && forall l <- NewLines(lines, updates, order) :: '\n' !in l
  {
    RewriteAt(lines, updates);
    forall l <- NewLines(lines, updates, order)
      ensures '\n' !in l
    {
      FlatMapIn(Rewriter(updates), lines, l);
      FlatMapIn(Appender(updates), order, l);
      if x :| x in lines && l in Rewriter(updates)(x) {
        RewriteFree(x, updates);
      }
    }
  }

  lemma SplitText(content: string, updates: map<string, string>, order: seq<string>)
    requires ProperUpdates(updates)
    ensures Split(EnvText(content, updates, order), '\n') == NewLines(Split(content, '\n'), updates, order)
  {
    SplitFree(content, '\n');
    NewLinesFree(Split(content, '\n'), updates, order);
    SplitJoin(NewLines(Split(content, '\n'), updates, order), '\n');
  }

  lemma NewLinesMeaning(lines: seq<string>, updates: map<string, string>, order: seq<string>)
    requires ProperUpdates(updates) && WalkOf(order, updates.Keys - Merge(Binding, lines).Keys)
    ensures Merge(Binding, NewLines(lines, updates, order)) == Merge(Binding, lines) + updates
  {
    hide Binding, Rewriter, Appender;
    RewrittenMeaning(lines, updates);
    AppendedMeaning(order, updates);
    MergeConcat(Binding, FlatMap(Rewriter(updates), lines), FlatMap(Appender(updates), order));
    OverridePick(Merge(Binding, lines), updates, order);
  }

  /** Reading the rewritten file gives the old map overridden by the updates, whichever way the map was walked. */
  lemma WriteThenRead(content: string, updates: map<string, string>, order: seq<string>)
    requires ProperUpdates(updates) && WalkOf(order, Missing(content, updates))
    ensures Environment(EnvText(content, updates, order)) == Environment(content) + updates
  {
    SplitText(content, updates, order);
    NewLinesMeaning(Split(content, '\n'), updates, order);
  }

  /** Comments, blanks and the lines of other keys stay where they were; new lines come after all old ones. */
  lemma OtherLinesStay(content: string, updates: map<string, string>, order: seq<string>, i: nat)
    requires ProperUpdates(updates) && i < |Split(content, '\n')|
    ensures var old_, new_ := Split(content, '\n'), Split(EnvText(content, updates, order), '\n');
            && |new_| >= |old_|
            && (Assignment(old_[i]).None? || Assignment(old_[i]).value.0 !in updates ==> new_[i] == old_[i])
            && (Assignment(old_[i]).Some? && Assignment(old_[i]).value.0 in updates ==>
                  new_[i] == Assignment(old_[i]).value.0 + "=" + updates[Assignment(old_[i]).value.0])
  {
    var lines := Split(content, '\n');
    SplitText(content, updates, order);
    RewriteAt(lines, updates);
    assert [NewLines(lines, updates, order)[i]] == Rewrite(lines[i], updates);
  }

  lemma RewriteStable(line: string, updates: map<string, string>)
    requires ProperUpdates(updates)
    ensures forall l <- Rewrite(line, updates) :: Rewrite(l, updates) == [l]
  {
    var a := Assignment(line);
    if a.Some? && a.value.0 in updates {
      KeyThenValue(a.value.0, updates[a.value.0]);
    }
  }

  lemma NewLinesStable(lines: seq<string>, updates: map<string, string>, order: seq<string>)
    requires ProperUpdates(updates)
    ensures FlatMap(Rewriter(updates), NewLines(lines, updates, order)) == NewLines(lines, updates, order)
  {
    var f := Rewriter(updates);
    forall l <- NewLines(lines, updates, order)
      ensures f(l) == [l]
    {
      FlatMapIn(f, lines, l);
      FlatMapIn(Appender(updates), order, l);
      if x :| x in lines && l in f(x) {
        RewriteStable(x, updates);
      } else {
        var k :| k in order && l in Appender(updates)(k);
        KeyThenValue(k, updates[k]);
      }
    }
    FlatMapSame(f, NewLines(lines, updates, order));
  }

  /** Applying the same updates a second time changes no byte. */
  lemma SecondWriteIsNoOp(content: string, updates: map<string, string>, order: seq<string>, again: seq<string>)
    requires ProperUpdates(updates) && WalkOf(order, Missing(content, updates))
    requires WalkOf(again, Missing(EnvText(content, updates, order), updates))
    ensures EnvText(EnvText(content, updates, order), updates, again) == EnvText(content, updates, order)
  {
    var lines := Split(content, '\n');
    SplitText(content, updates, order);
    NewLinesMeaning(lines, updates, order);
    NewLinesStable(lines, updates, order);
    HeadIn(again);
    var out := NewLines(lines, updates, order);
    assert out + [] == out;
  }

  // ---- spelled out ------------------------------------------------------

  /** Comments, blank lines, lines without `=` and lines starting with it assign nothing. */
  lemma NothingAssigned(pad: string, rest: string)
    requires AllIn(pad, SPACE)
    ensures Assignment(pad + "#" + rest) == None && Assignment(pad) == None && Assignment(pad + "=" + rest) == None
    ensures '=' !in rest ==> Assignment(rest) == None
  {
    hide Trim;
    FirstKept(pad, '#', rest);
    FirstKept(pad, '=', rest);
    TrimPad(pad, "", "", SPACE);
    assert pad + "" + "" == pad;
    IndexCharSpec(TrimSpace(pad + "=" + rest), '=');
    if '=' !in rest {
      var left, right := TrimSplits(rest, SPACE);
      IndexCharSpec(TrimSpace(rest), '=');
    }
  }

  /** Trimming keeps the first character that is not a space. */
  lemma FirstKept(pad: string, c: char, rest: string)
    requires AllIn(pad, SPACE) && '!' <= c <= '~'
    ensures TrimSpace(pad + [c] + rest) != "" && TrimSpace(pad + [c] + rest)[0] == c
  {
    var t := [c] + rest;
    SpaceChars(c);
    assert pad + [c] + rest == pad + t;
    TrimLeftPad(pad, t, SPACE);
    BodyReaches(t, SPACE, 0);
  }

  /** A comment line changes nothing about what a file assigns. */
  lemma CommentIgnored(a: string, pad: string, text: string, b: string)
    requires AllIn(pad, SPACE) && '\n' !in pad && '\n' !in text
    ensures Environment(a + ['\n'] + (pad + "#" + text) + ['\n'] + b) == Environment(a + ['\n'] + b)
  {
    hide *;
    CommentOneLine(pad, text);
    NothingAssigned(pad, text);
    UnassignedBinding(pad + "#" + text);
    LineIgnored(a, pad + "#" + text, b);
  }

  lemma CommentOneLine(pad: string, text: string)
    requires '\n' !in pad && '\n' !in text
    ensures '\n' !in pad + "#" + text
  {
  }

  lemma LineIgnored(a: string, c: string, b: string)
    requires '\n' !in c && Binding(c) == map[]
    ensures Environment(a + ['\n'] + c + ['\n'] + b) == Environment(a + ['\n'] + b)
  {
    hide Binding, Split;
    SplitConcat(a + ['\n'] + c, b, '\n');
    SplitConcat(a, c, '\n');
    SplitConcat(a, b, '\n');
    SplitNone(c, '\n');
    MergeConcat(Binding, Split(a, '\n') + [c], Split(b, '\n'));
    MergeConcat(Binding, Split(a, '\n'), Split(b, '\n'));
    MergeSnoc(Binding, Split(a, '\n'), c);
  }

  lemma UnassignedBinding(line: string)
    requires Assignment(line) == None
    ensures Binding(line) == map[]
  {
  }

  /** A value may be quoted, and key and value may be set apart by spaces. */
  lemma QuotedReads(k: string, gap: string, v: string, quote: string)
    requires Proper(k, v) && AllIn(gap, SPACE) && quote in {"\"", "'", ""}
    ensures Binding(k + gap + "=" + (gap + (quote + v + quote))) == map[k := v]
  {
    hide Trim, Binding;
    var raw := quote + v + quote;
    var line := k + gap + "=" + (gap + raw);
    BareQuoted(v, quote);
    TrimPad("", raw, "", SPACE);
    TrimPad(gap, raw, "", SPACE);
    assert gap + raw + "" == gap + raw && "" + raw + "" == raw;
    TrimPad(quote, v, quote, QUOTES);
    AssignedBetween(k, gap, gap + raw, raw);
    BindingOf(line, k, raw);
  }

  lemma BareQuoted(v: string, quote: string)
    requires Bare(v, SPACE) && quote in {"\"", "'", ""}
    ensures Bare(quote + v + quote, SPACE) && AllIn(quote, QUOTES)
  {
    SpaceChars('"');
    SpaceChars('\'');
    assert quote == "" ==> quote + v + quote == v;
  }

  lemma BindingOf(line: string, k: string, raw: string)
    requires Assignment(line).Some? && Assignment(line).value.0 == k && TrimSpace(Assignment(line).value.1) == raw
    ensures Binding(line) == map[k := Trim(raw, QUOTES)]
  {
    hide Assignment;
  }

  lemma AssignedBetween(k: string, gap: string, after: string, raw: string)
    requires k != "" && Bare(k, SPACE) && k[0] != '#' && '=' !in k && AllIn(gap, SPACE)
    requires TrimSpace(after) == raw
    ensures var a := Assignment(k + gap + "=" + after);
            a.Some? && a.value.0 == k && TrimSpace(a.value.1) == raw
  {
    hide Trim;
    var front := k + gap;
    var line := front + ['='] + after;
    SpaceChars('=');
    assert '=' !in gap by {
      assert '=' !in SPACE;
    }
    var t := TrimSpace(line);
    var m := TrimmedAfter(front, after);
    assert t == front + ['='] + m;
    IndexCharFirst(front, '=', m);
    assert t[..|front|] == front && t[|front| + 1..] == m;
    TrimPad("", k, gap, SPACE);
    assert "" + k + gap == front;
    TrimTwice(after, m);
  }

  /** Trimming a line whose first character is not a space takes spaces off its end only. */
  lemma TrimmedAfter(front: string, after: string) returns (m: string)
    requires front != "" && front[0] !in SPACE && '=' !in SPACE
    ensures TrimSpace(front + ['='] + after) == front + ['='] + m
    ensures m <= after && AllIn(after[|m|..], SPACE)
  {
    var line := front + ['='] + after;
    TrimLeftPad("", line, SPACE);
    assert "" + line == line;
    BodyReaches(line, SPACE, |front|);
    BodyLenSpec(line, SPACE);
    var n := BodyLen(line, SPACE);
    m := after[..n - |front| - 1];
    assert line[..n] == front + ['='] + m;
    assert after[|m|..] == line[n..];
  }

  lemma TrimTwice(after: string, m: string)
    requires m <= after && AllIn(after[|m|..], SPACE)
    ensures TrimSpace(m) == TrimSpace(after)
  {
    hide Trim;
    var left, right := TrimSplits(m, SPACE);
    var body := TrimSpace(m);
    TrimBare(m, SPACE);
    assert after == left + body + (right + after[|m|..]);
    TrimPad(left, body, right + after[|m|..], SPACE);
  }
}
