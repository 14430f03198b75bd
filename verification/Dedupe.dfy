/** `bzpanel heal-mail`: keeps only the latest line of each key in a passwd-style or map-style file. */
module Dedupe {
  import opened Text
  import opened Options

  // ---- the specification, for any notion of key ------------------------

  predicate HasKey<L(==), K(==)>(key: L -> Option<K>, lines: seq<L>, k: K) {
    exists l <- lines :: key(l) == Some(k)
  }

  /** A line stays if it has no key or no later line has the same key. */
  function Kept<L(==), K(==)>(key: L -> Option<K>, lines: seq<L>): seq<L> {
    if lines == [] then []
    else
      var k := key(lines[0]);
      (if k == None || !HasKey(key, lines[1..], k.value) then [lines[0]] else []) + Kept(key, lines[1..])
  }

  function FirstMatch<L(==), K(==)>(key: L -> Option<K>, lines: seq<L>, k: K): Option<L> {
    if lines == [] then None else if key(lines[0]) == Some(k) then Some(lines[0]) else FirstMatch(key, lines[1..], k)
  }

  function LastMatch<L(==), K(==)>(key: L -> Option<K>, lines: seq<L>, k: K): Option<L> {
    if lines == [] then None
    else
      var n := |lines| - 1;
      if key(lines[n]) == Some(k) then Some(lines[n]) else LastMatch(key, lines[..n], k)
  }

  /** How many lines carry the key. */
  function Count<L(==), K(==)>(key: L -> Option<K>, lines: seq<L>, k: Option<K>): nat {
    if lines == [] then 0 else (if key(lines[0]) == k then 1 else 0) + Count(key, lines[1..], k)
  }

  function Keyless<L(==), K(==)>(key: L -> Option<K>, lines: seq<L>): seq<L> {
    if lines == [] then [] else (if key(lines[0]) == None then [lines[0]] else []) + Keyless(key, lines[1..])
  }

  predicate Subsequence<L(==)>(a: seq<L>, b: seq<L>) {
    a == [] || (b != [] && ((a[0] == b[0] && Subsequence(a[1..], b[1..])) || Subsequence(a, b[1..])))
  }

  lemma {:induction false} LastMatchCons<L, K>(key: L -> Option<K>, lines: seq<L>, k: K)
    requires lines != []
    ensures LastMatch(key, lines, k)
         == if HasKey(key, lines[1..], k) then LastMatch(key, lines[1..], k)
            else if key(lines[0]) == Some(k) then Some(lines[0]) else None
  {
    var n := |lines| - 1;
    if n > 0 {
      LastMatchCons(key, lines[..n], k);
      assert lines[1..][..n - 1] == lines[..n][1..];
      assert lines[1..][n - 1] == lines[n];
      assert forall l <- lines[1..] :: l in lines[..n][1..] || l == lines[n];
      if !HasKey(key, lines[..n][1..], k) {
        LastMatchNone(key, lines[..n][1..], k);
      }
      assert forall l <- lines[..n][1..] :: l in lines[1..];
    }
  }

  lemma {:induction false} LastMatchNone<L, K>(key: L -> Option<K>, lines: seq<L>, k: K)
    requires !HasKey(key, lines, k)
    ensures LastMatch(key, lines, k) == None
  {
    if lines != [] {
      LastMatchNone(key, lines[..|lines| - 1], k);
    }
  }

  lemma {:induction false} KeptKeys<L, K>(key: L -> Option<K>, lines: seq<L>, k: K)
    ensures HasKey(key, Kept(key, lines), k) <==> HasKey(key, lines, k)
  {
    if lines != [] {
      KeptKeys(key, lines[1..], k);
      assert HasKey(key, lines, k) <==> key(lines[0]) == Some(k) || HasKey(key, lines[1..], k);
    }
  }

  /** The first match among the kept lines is the last match among all lines. */
  lemma {:induction false} FirstIsLast<L, K>(key: L -> Option<K>, lines: seq<L>, k: K)
    ensures FirstMatch(key, Kept(key, lines), k) == LastMatch(key, lines, k)
  {
    if lines != [] {
      var rest := Kept(key, lines[1..]);
      FirstIsLast(key, lines[1..], k);
      LastMatchCons(key, lines, k);
      if Kept(key, lines) != rest {
        assert Kept(key, lines) == [lines[0]] + rest;
        assert ([lines[0]] + rest)[1..] == rest;
      }
      if !HasKey(key, lines[1..], k) {
        LastMatchNone(key, lines[1..], k);
      }
    }
  }

  lemma {:induction false} CountNone<L, K>(key: L -> Option<K>, lines: seq<L>, k: K)
    ensures Count(key, lines, Some(k)) == 0 <==> !HasKey(key, lines, k)
  {
    if lines != [] {
      CountNone(key, lines[1..], k);
      assert HasKey(key, lines, k) <==> key(lines[0]) == Some(k) || HasKey(key, lines[1..], k);
    }
  }

  /** What survives: a subsequence of the input, with every keyless line and exactly one line per key. */
  lemma {:induction false} KeptShape<L, K>(key: L -> Option<K>, lines: seq<L>, k: K)
    ensures Subsequence(Kept(key, lines), lines)
    ensures Keyless(key, Kept(key, lines)) == Keyless(key, lines)
    ensures Count(key, Kept(key, lines), Some(k)) == if HasKey(key, lines, k) then 1 else 0
  {
    if lines != [] {
      var out, rest := Kept(key, lines), Kept(key, lines[1..]);
      KeptShape(key, lines[1..], k);
      CountNone(key, lines, k);
      assert HasKey(key, lines, k) <==> key(lines[0]) == Some(k) || HasKey(key, lines[1..], k);
      if out != rest {
        assert out == [lines[0]] + rest && out[1..] == rest;
      }
    }
  }

  /** Keeping the latest lines twice is keeping them once. */
  lemma {:induction false} KeptTwice<L, K>(key: L -> Option<K>, lines: seq<L>)
    ensures Kept(key, Kept(key, lines)) == Kept(key, lines)
  {
    if lines != [] {
      var out, rest := Kept(key, lines), Kept(key, lines[1..]);
      KeptTwice(key, lines[1..]);
      var k := key(lines[0]);
      if k == None || !HasKey(key, lines[1..], k.value) {
        assert out == [lines[0]] + rest && out[1..] == rest;
        if k.Some? {
          KeptKeys(key, lines[1..], k.value);
        }
      } else {
        assert out == rest;
      }
    }
  }

  lemma {:induction false} KeptLast<L, K>(key: L -> Option<K>, lines: seq<L>)
    requires lines != []
    ensures Kept(key, lines) != []
    ensures forall l <- Kept(key, lines) :: l in lines
  {
    if |lines| > 1 {
      KeptLast(key, lines[1..]);
    }
  }

  predicate Stays<L(==), K(==)>(key: L -> Option<K>, lines: seq<L>, i: nat)
    requires i < |lines|
  {
    key(lines[i]) == None || !HasKey(key, lines[i + 1..], key(lines[i]).value)
  }

  lemma KeptFrom<L, K>(key: L -> Option<K>, lines: seq<L>, i: nat)
    requires i < |lines|
    ensures Kept(key, lines[i..]) == (if Stays(key, lines, i) then [lines[i]] else []) + Kept(key, lines[i + 1..])
  {
    assert lines[i..][1..] == lines[i + 1..];
  }

  // ---- the file --------------------------------------------------------

  /** The key of a line: none for blanks and comments, for lines without the separator, and for empty keys. */
  function LineKey(sep: string, line: string): Option<string> {
    var t := TrimSpace(line);
    if t == "" || t[0] == '#' then None
    else if sep == "" then
      var fields := Fields(t);
      if fields == [] then None else NonEmpty(fields[0])
    else
      var at := Index(t, sep);
      if at < 0 then None else NonEmpty(t[..at])
  }

  function NonEmpty(s: string): Option<string> {
    if s == "" then None else Some(s)
  }

  function Keyer(sep: string): string -> Option<string> {
    line => LineKey(sep, line)
  }

  /** The key at every index, and the last index of every key. */
  ghost predicate Indexed<L, K>(key: L -> Option<K>, lines: seq<L>, keyAt: seq<Option<K>>, lastIdx: map<K, nat>) {
    && |keyAt| == |lines|
    && (forall j :: 0 <= j < |lines| ==> keyAt[j] == key(lines[j]))
    && (forall k <- lastIdx :: lastIdx[k] < |lines| && keyAt[lastIdx[k]] == Some(k))
    && (forall j :: 0 <= j < |lines| && keyAt[j].Some? ==> keyAt[j].value in lastIdx && j <= lastIdx[keyAt[j].value])
  }

  method IndexKeys<L, K(==)>(key: L -> Option<K>, lines: seq<L>) returns (keyAt: seq<Option<K>>, lastIdx: map<K, nat>)
    ensures Indexed(key, lines, keyAt, lastIdx)
  {
    lastIdx, keyAt := map[], [];
    for i := 0 to |lines|
      invariant Indexed(key, lines[..i], keyAt, lastIdx)
    {
      var k := key(lines[i]);
      keyAt := keyAt + [k];
      if k.Some? {
        lastIdx := lastIdx[k.value := i];
      }
    }
    assert lines[..|lines|] == lines;
  }

  lemma StaysIffLast<L, K>(key: L -> Option<K>, lines: seq<L>, keyAt: seq<Option<K>>, lastIdx: map<K, nat>, i: nat)
    requires Indexed(key, lines, keyAt, lastIdx) && i < |lines|
    ensures keyAt[i].Some? ==> keyAt[i].value in lastIdx
    ensures Stays(key, lines, i) <==> keyAt[i] == None || lastIdx[keyAt[i].value] == i
  {
    if keyAt[i].Some? {
      var last := lastIdx[keyAt[i].value];
      if last != i {
        assert lines[i + 1..][last - i - 1] == lines[last];
      }
    }
  }

  /** First pass: index the keys. Second pass: take the lines that have no key or are their key's last one. */
  method KeepLatest<L(==), K(==)>(key: L -> Option<K>, lines: seq<L>) returns (out: seq<L>, dupes: nat)
    ensures out == Kept(key, lines)
    ensures dupes + |out| == |lines|
  {
    hide Kept, Stays;
    var keyAt, lastIdx := IndexKeys(key, lines);
    out, dupes := [], 0;
    assert lines[0..] == lines;
    for i := 0 to |lines|
      invariant out + Kept(key, lines[i..]) == Kept(key, lines)
      invariant dupes + |out| == i
    {
      KeptFrom(key, lines, i);
      StaysIffLast(key, lines, keyAt, lastIdx, i);
      var k := keyAt[i];
      if k == None || lastIdx[k.value] == i {
        out := out + [lines[i]];
      } else {
        dupes := dupes + 1;
      }
    }
    assert Kept(key, lines[|lines|..]) == [] by {
      KeptNone(key, lines[|lines|..]);
    }
  }

  lemma KeptNone<L, K>(key: L -> Option<K>, lines: seq<L>)
    requires lines == []
    ensures Kept(key, lines) == []
  {
  }

  /** What the file holds after a run that removed something. */
  function DedupedText(content: string, sep: string): string {
    Join(Kept(Keyer(sep), Split(content, '\n')), "\n")
  }

  class MailFile {
    var content: Option<string>

    /** None is an error: the file is unreadable, or the temporary copy cannot be written or renamed. */
    method DedupePasswdFile(sep: string, tmpWritten: bool, renamed: bool) returns (removed: Option<nat>)
      modifies this
      ensures removed.None? <==>
                || old(content).None?
                || (DedupedText(old(content).value, sep) != old(content).value && !(tmpWritten && renamed))
      ensures removed.None? ==> content == old(content)
      ensures removed.Some? ==>
                && content == Some(DedupedText(old(content).value, sep))
                && removed.value + |Kept(Keyer(sep), Split(old(content).value, '\n'))|
                   == |Split(old(content).value, '\n')|
    {
      if content.None? {
        return None;
      }
      var lines := Split(content.value, '\n');
      var out, dupes := KeepLatest(Keyer(sep), lines);
      KeptAllIffSame(Keyer(sep), lines);
      JoinSplit(content.value, '\n');
      if dupes == 0 {
        return Some(0);
      }
      SameTextSameLines(content.value, sep);
      if !tmpWritten || !renamed {
        return None;
      }
      content := Some(Join(out, "\n"));
      removed := Some(dupes);
    }
  }

  lemma {:induction false} KeptAllIffSame<L, K>(key: L -> Option<K>, lines: seq<L>)
    ensures |Kept(key, lines)| <= |lines|
    ensures |Kept(key, lines)| == |lines| ==> Kept(key, lines) == lines
  {
    if lines != [] {
      KeptAllIffSame(key, lines[1..]);
      assert [lines[0]] + lines[1..] == lines;
    }
  }

  lemma KeptSplits(content: string, sep: string)
    ensures Split(DedupedText(content, sep), '\n') == Kept(Keyer(sep), Split(content, '\n'))
  {
    var lines := Split(content, '\n');
    SplitFree(content, '\n');
    KeptLast(Keyer(sep), lines);
    SplitJoin(Kept(Keyer(sep), lines), '\n');
  }

  lemma SameTextSameLines(content: string, sep: string)
    ensures DedupedText(content, sep) == content <==> Kept(Keyer(sep), Split(content, '\n')) == Split(content, '\n')
  {
    KeptSplits(content, sep);
    JoinSplit(content, '\n');
  }

  /** A second run changes nothing and removes no line. */
  lemma SecondRunIsNoOp(content: string, sep: string)
    ensures DedupedText(DedupedText(content, sep), sep) == DedupedText(content, sep)
    ensures Kept(Keyer(sep), Split(DedupedText(content, sep), '\n')) == Split(DedupedText(content, sep), '\n')
  {
    KeptSplits(content, sep);
    KeptTwice(Keyer(sep), Split(content, '\n'));
  }

  /** Looking a key up in the rewritten file, first match first, finds the latest line of the old file. */
  lemma LookupKeepsLatest(content: string, sep: string, k: string)
    ensures FirstMatch(Keyer(sep), Split(DedupedText(content, sep), '\n'), k)
         == LastMatch(Keyer(sep), Split(content, '\n'), k)
  {
    KeptSplits(content, sep);
    FirstIsLast(Keyer(sep), Split(content, '\n'), k);
  }

  // ---- spelled out ------------------------------------------------------

  /** In a passwd-style file the key is what stands before the first colon, in a map-style file the first word. */
  lemma KeysOfLines(pad: string, k: string, rest: string)
    requires AllIn(pad, SPACE) && k != "" && k[0] !in SPACE && k[0] != '#'
    ensures ':' !in k ==> LineKey(":", pad + k + ":" + rest) == Some(k)
    ensures Token(k) && (rest != "" ==> rest[0] in SPACE) ==> LineKey("", pad + k + rest) == Some(k)
  {
    hide Trim, Fields, Index;
    if ':' !in k {
      var t := ColonKept(pad, k, rest);
      FirstColon(k, t);
    }
    if Token(k) && (rest != "" ==> rest[0] in SPACE) {
      var line := pad + k + rest;
      FieldsTrim(line);
      FieldsCons(pad, k, rest);
      FirstStays(pad, k, rest);
      FieldsTrim(TrimSpace(line));
    }
  }

  lemma FirstStays(pad: string, k: string, rest: string)
    requires AllIn(pad, SPACE) && k != "" && k[0] !in SPACE
    ensures TrimSpace(pad + k + rest) != "" && TrimSpace(pad + k + rest)[0] == k[0]
  {
    var x := k + rest;
    assert pad + k + rest == pad + x;
    TrimLeftPad(pad, x, SPACE);
    BodyReaches(x, SPACE, 0);
  }

  lemma ColonKept(pad: string, k: string, rest: string) returns (t: string)
    requires AllIn(pad, SPACE) && k != "" && k[0] !in SPACE
    ensures TrimSpace(pad + k + ":" + rest) == k + ":" + t
  {
    var x := k + ":" + rest;
    SpaceChars(':');
    assert pad + k + ":" + rest == pad + x && x[|k|] == ':';
    TrimLeftPad(pad, x, SPACE);
    BodyReaches(x, SPACE, |k|);
    var n := BodyLen(x, SPACE);
    t := rest[..n - |k| - 1];
    assert x[..n] == k + ":" + t;
  }

  lemma FirstColon(k: string, t: string)
    requires ':' !in k
    ensures Index(k + ":" + t, ":") == |k| && (k + ":" + t)[..|k|] == k
  {
    var s := k + ":" + t;
    IndexFirst(s, ":");
    assert s[|k|..] == ":" + t;
    forall j | 0 <= j < |k|
      ensures !(":" <= s[j..])
    {
      assert s[j..][0] == k[j];
    }
  }

  /** Comments, blank lines, lines without the colon and lines starting with it have no key. */
  lemma KeylessLines(sep: string, pad: string, rest: string)
    requires AllIn(pad, SPACE) && sep in {":", ""}
    ensures LineKey(sep, pad + "#" + rest) == None && LineKey(sep, pad) == None
    ensures ':' !in rest ==> LineKey(":", rest) == None
    ensures LineKey(":", pad + ":" + rest) == None
  {
    hide Trim, Index, Fields;
    SpaceChars('#');
    SpaceChars(':');
    FirstStays(pad, "#", rest);
    FirstStays(pad, ":", rest);
    TrimPad(pad, "", "", SPACE);
    assert pad + "" + "" == pad;
    var t := TrimSpace(pad + ":" + rest);
    IndexFirst(t, ":");
    assert t[0..] == t && ":" <= t;
    if ':' !in rest {
      var left, right := TrimSplits(rest, SPACE);
      IndexFirst(TrimSpace(rest), ":");
    }
  }
}
