/** String helpers of the note engine: JavaScript's `trim`, `split` on a
    one-character separator, `join`, the comma-separated tag field, ASCII
    `toLowerCase`, `includes`, `substring`, and the editor's word count and
    markdown splice. */
module Text {
  import opened Seqs

  /** The code points JavaScript's `trim` strips and the regex class `\s`
      matches (WhiteSpace and LineTerminator): tab to carriage return, space,
      no-break space, ogham space, the spaces U+2000 to U+200A, the line and
      paragraph separators, narrow no-break space, medium mathematical space,
      ideographic space and the byte order mark. */
  predicate IsSpace(c: char) {
    '\t' <= c <= '\r' || c == ' ' || c == '\U{00A0}' || c == '\U{1680}' ||
    '\U{2000}' <= c <= '\U{200A}' || c == '\U{2028}' || c == '\U{2029}' ||
    c == '\U{202F}' || c == '\U{205F}' || c == '\U{3000}' || c == '\U{FEFF}'
  }

  /** Neither end of `s` is white space. */
  predicate IsTrimmed(s: string) {
    s == [] || (!IsSpace(s[0]) && !IsSpace(s[|s| - 1]))
  }

  predicate AllSpace(s: string) {
    forall i :: 0 <= i < |s| ==> IsSpace(s[i])
  }

  /** Drops the leading white space: the result is a suffix of `s`. */
  function TrimStart(s: string): (r: string)
    ensures |r| <= |s| && r == s[|s| - |r|..]
    ensures r == [] || !IsSpace(r[0])
    ensures AllSpace(s[..|s| - |r|])
  {
    if s != [] && IsSpace(s[0]) then TrimStart(s[1..]) else s
  }

  /** Drops the trailing white space: the result is a prefix of `s`. */
  function TrimEnd(s: string): (r: string)
    ensures |r| <= |s| && r == s[..|r|]
    ensures r == [] || !IsSpace(r[|r| - 1])
    ensures AllSpace(s[|r|..])
  {
    if s != [] && IsSpace(s[|s| - 1]) then TrimEnd(s[..|s| - 1]) else s
  }

  /** `String.prototype.trim`. */
  function Trim(s: string): (r: string)
    ensures IsTrimmed(r)
    ensures r == [] <==> AllSpace(s)
    ensures IsTrimmed(s) ==> r == s
    ensures exists i, j :: TrimsTo(s, r, i, j)
  {
    TrimBlank(s);
    TrimKeepsTrimmed(s);
    TrimSlice(s);
    TrimEnd(TrimStart(s))
  }

  /** `r` is `s[i..j]` and everything outside that slice is white space. */
  predicate TrimsTo(s: string, r: string, i: int, j: int) {
    0 <= i <= j <= |s| && r == s[i..j] && AllSpace(s[..i]) && AllSpace(s[j..])
  }

  /** Trimming cuts white space off both ends and keeps the middle. */
  lemma TrimSlice(s: string)
    ensures exists i, j :: TrimsTo(s, TrimEnd(TrimStart(s)), i, j)
  {
    var a := TrimStart(s);
    var r := TrimEnd(a);
    var i := |s| - |a|;
    var j := i + |r|;
    SuffixOfSlice(s, a, |r|);
    assert TrimsTo(s, r, i, j);
  }

  lemma SuffixOfSlice(s: string, a: string, k: nat)
    requires |a| <= |s| && a == s[|s| - |a|..] && k <= |a|
    ensures a[..k] == s[|s| - |a|..|s| - |a| + k]
    ensures a[k..] == s[|s| - |a| + k..]
  {
  }

  lemma AllSpaceAppend(x: string, y: string)
    requires AllSpace(x) && AllSpace(y)
    ensures AllSpace(x + y)
  {
  }

  /** Trimming leaves nothing exactly when the string is all white space. */
  lemma TrimBlank(s: string)
    ensures TrimEnd(TrimStart(s)) == [] <==> AllSpace(s)
  {
    var a := TrimStart(s);
    var r := TrimEnd(a);
    var k := |s| - |a|;
    if r == [] {
      assert a[0..] == a;
      SplitAt(s, k);
      AllSpaceAppend(s[..k], a);
    } else {
      assert r[0] == a[0] && a[0] == s[k];
    }
  }

  lemma TrimKeepsTrimmed(s: string)
    ensures IsTrimmed(TrimEnd(TrimStart(s)))
    ensures IsTrimmed(s) ==> TrimEnd(TrimStart(s)) == s
  {
    var a := TrimStart(s);
    var r := TrimEnd(a);
    if r != [] {
      assert r[0] == a[0];
    }
  }

  /** Leading white space does not change the trimmed value. */
  lemma TrimSpaceCons(c: char, s: string)
    requires IsSpace(c)
    ensures Trim([c] + s) == Trim(s)
  {
    assert ([c] + s)[1..] == s;
  }

  /** JavaScript `s.split(sep)` for a one-character separator: the pieces
      between separators, empty pieces included; `"".split(sep)` is `[""]`. */
  function Split(s: string, sep: char): (r: seq<string>)
    ensures |r| >= 1
    ensures forall i :: 0 <= i < |r| ==> sep !in r[i]
    decreases |s|
  {
    if sep in s then
      var k := IndexOfChar(s, sep);
      [s[..k]] + Split(s[k + 1..], sep)
    else [s]
  }

  function IndexOfChar(s: string, c: char): (k: nat)
    requires c in s
    ensures k < |s| && s[k] == c && c !in s[..k]
  {
    if s[0] == c then 0 else
      var k := IndexOfChar(s[1..], c);
      assert s[1..][..k] == s[1..k + 1];
      k + 1
  }

  /** `Array.prototype.join(sep)`. */
  function Join(ps: seq<string>, sep: string): (r: string)
    ensures ps == [] ==> r == ""
    ensures ps != [] ==> |r| == TotalLength(ps) + (|ps| - 1) * |sep|
    ensures ps != [] ==> r[..|ps[0]|] == ps[0]
  {
    if ps == [] then ""
    else if |ps| == 1 then ps[0]
    else
      var rest := Join(ps[1..], sep);
      assert (ps[0] + sep + rest)[..|ps[0]|] == ps[0];
      ps[0] + sep + rest
  }

  /** The summed length of the pieces. */
  function TotalLength(ps: seq<string>): nat {
    if ps == [] then 0 else |ps[0]| + TotalLength(ps[1..])
  }

  /** Joining the pieces of a split with the separator gives back the string. */
  lemma {:induction false} JoinSplit(s: string, sep: char)
    ensures Join(Split(s, sep), [sep]) == s
    decreases |s|
  {
    if sep in s {
      var k := IndexOfChar(s, sep);
      var rest := s[k + 1..];
      JoinSplit(rest, sep);
      JoinCons(s[..k], Split(rest, sep), [sep]);
      SplitAround(s, k);
    }
  }

  lemma JoinCons(p: string, ps: seq<string>, sep: string)
    requires ps != []
    ensures Join([p] + ps, sep) == p + sep + Join(ps, sep)
  {
    assert ([p] + ps)[1..] == ps;
  }

  lemma SplitPieceThenSep(a: string, sep: char, b: string)
    requires sep !in a
    ensures Split(a + [sep] + b, sep) == [a] + Split(b, sep)
  {
    var s := a + [sep] + b;
    assert s[|a|] == sep;
    var k := IndexOfChar(s, sep);
    assert s[..k] == a;
    assert s[k + 1..] == b;
  }

  /** Splitting a join gives back the pieces, provided none contains the separator. */
  lemma {:induction false} SplitJoin(ps: seq<string>, sep: char)
    requires |ps| >= 1
    requires forall i :: 0 <= i < |ps| ==> sep !in ps[i]
    ensures Split(Join(ps, [sep]), sep) == ps
  {
    if |ps| > 1 {
      SplitJoin(ps[1..], sep);
      SplitPieceThenSep(ps[0], sep, Join(ps[1..], [sep]));
      assert ps == [ps[0]] + ps[1..];
    }
  }

  function TrimAll(ps: seq<string>): (r: seq<string>)
    ensures |r| == |ps|
    ensures forall i :: 0 <= i < |r| ==> r[i] == Trim(ps[i])
  {
    if ps == [] then [] else [Trim(ps[0])] + TrimAll(ps[1..])
  }

  /** `filter(tag => tag)`: the non-empty strings, each occurrence kept, in order. */
  function KeepNonEmpty(ps: seq<string>): (r: seq<string>)
    ensures IsSubseq(r, ps)
    ensures forall i :: 0 <= i < |r| ==> r[i] != [] && r[i] in ps
    ensures forall i :: 0 <= i < |ps| && ps[i] != [] ==> ps[i] in r
    ensures forall x :: x != [] ==> multiset(r)[x] == multiset(ps)[x]
  {
    if ps == [] then []
    else
      var t := KeepNonEmpty(ps[1..]);
      MultisetCons(ps);
      var r := if ps[0] == [] then t else [ps[0]] + t;
      assert IsSubseq(r, ps) by {
        if ps[0] == [] {
          SubseqSkip(t, ps);
        } else {
          assert r[1..] == t;
        }
      }
      assert forall i :: 0 <= i < |r| ==> r[i] != [] by {
        if ps[0] != [] {
          assert forall i :: 1 <= i < |r| ==> r[i] == t[i - 1];
        }
      }
      assert forall x :: x != [] ==> multiset(r)[x] == multiset(ps)[x] by {
        if ps[0] != [] {
          MultisetCons(r);
          assert r[1..] == t;
        }
      }
      CountedMembers(r, ps);
      r
  }

  /** Equal counts of every non-empty string give the same non-empty members. */
  lemma CountedMembers(r: seq<string>, ps: seq<string>)
    requires forall i :: 0 <= i < |r| ==> r[i] != []
    requires forall x :: x != [] ==> multiset(r)[x] == multiset(ps)[x]
    ensures forall i :: 0 <= i < |r| ==> r[i] in ps
    ensures forall i :: 0 <= i < |ps| && ps[i] != [] ==> ps[i] in r
  {
    forall i | 0 <= i < |r| ensures r[i] in ps {
      assert r[i] in multiset(r);
    }
    forall i | 0 <= i < |ps| && ps[i] != [] ensures ps[i] in r {
      assert ps[i] in multiset(ps);
    }
  }

  /** A tag as the tag field produces it: non-empty, trimmed, comma-free. */
  predicate IsTag(t: string) {
    t != [] && IsTrimmed(t) && ',' !in t
  }

  predicate AllTags(ts: seq<string>) {
    forall i :: 0 <= i < |ts| ==> IsTag(ts[i])
  }

  /** `tags.split(',').map(tag => tag.trim()).filter(tag => tag)`: every
      result is a well-formed tag, and it is the trimmed text of one of the
      comma-separated pieces. */
  function ParseTags(field: string): (r: seq<string>)
    ensures AllTags(r)
    ensures forall i :: 0 <= i < |r| ==> r[i] in TrimAll(Split(field, ','))
    ensures IsSubseq(r, TrimAll(Split(field, ',')))
    ensures forall p :: p in Split(field, ',') && Trim(p) != [] ==> Trim(p) in r
    ensures forall x :: x != [] ==> multiset(r)[x] == multiset(TrimAll(Split(field, ',')))[x]
  {
    var pieces := Split(field, ',');
    var trimmed := TrimAll(pieces);
    forall k | 0 <= k < |trimmed| ensures trimmed[k] == [] || IsTag(trimmed[k]) {
      TrimIsSlice(pieces[k]);
    }
    KeepNonEmptyTags(trimmed);
    KeepNonEmpty(trimmed)
  }

  lemma {:induction false} KeepNonEmptyTags(ps: seq<string>)
    requires forall k :: 0 <= k < |ps| ==> ps[k] == [] || IsTag(ps[k])
    ensures AllTags(KeepNonEmpty(ps))
  {
    if ps != [] {
      KeepNonEmptyTags(ps[1..]);
    }
  }

  /** Trimming takes out characters, so it adds no comma. */
  lemma TrimIsSlice(s: string)
    ensures forall c :: c in Trim(s) ==> c in s
  {
    var a := TrimStart(s);
    assert forall c :: c in TrimEnd(a) ==> c in a;
    assert forall c :: c in a ==> c in s;
  }

  /** The edit form shows the tags joined with ", " (`note.tags.join(', ')`). */
  function JoinTags(ts: seq<string>): string {
    Join(ts, ", ")
  }

  lemma TrimAllCons(p: string, ps: seq<string>)
    ensures TrimAll([p] + ps) == [Trim(p)] + TrimAll(ps)
  {
    assert ([p] + ps)[1..] == ps;
  }

  lemma KeepNonEmptyCons(p: string, ps: seq<string>)
    requires p != []
    ensures KeepNonEmpty([p] + ps) == [p] + KeepNonEmpty(ps)
  {
    assert ([p] + ps)[1..] == ps;
  }

  /** A leading blank in front of the first piece is lost after trimming. */
  lemma {:induction false} TrimAllSplitSpace(x: string)
    ensures TrimAll(Split(" " + x, ',')) == TrimAll(Split(x, ','))
  {
    if ',' in x {
      TrimAllSplitSpaceAt(x);
    } else {
      assert " " + x == [' '] + x;
      SplitNoSep(" " + x, ',');
      SplitNoSep(x, ',');
      TrimAllSingle(" " + x);
      TrimAllSingle(x);
      TrimSpaceCons(' ', x);
    }
  }

  lemma SplitNoSep(s: string, sep: char)
    requires sep !in s
    ensures Split(s, sep) == [s]
  {
  }

  lemma TrimAllSingle(p: string)
    ensures TrimAll([p]) == [Trim(p)]
  {
    assert [p][1..] == [];
  }

  lemma TrimAllSplitSpaceAt(x: string)
    requires ',' in x
    ensures TrimAll(Split(" " + x, ',')) == TrimAll(Split(x, ','))
  {
    var k := IndexOfChar(x, ',');
    var a, b := x[..k], x[k + 1..];
    SplitAround(x, k);
    SpaceThenPieces(a, b);
    SplitPieceThenSep(" " + a, ',', b);
    SplitPieceThenSep(a, ',', b);
    SpaceBeforeFirstPiece(a, Split(b, ','));
  }

  lemma SpaceThenPieces(a: string, b: string)
    ensures " " + (a + [','] + b) == (" " + a) + [','] + b
  {
  }

  lemma SpaceBeforeFirstPiece(a: string, rest: seq<string>)
    ensures TrimAll([" " + a] + rest) == TrimAll([a] + rest)
  {
    TrimAllCons(" " + a, rest);
    TrimAllCons(a, rest);
    assert " " + a == [' '] + a;
    TrimSpaceCons(' ', a);
  }

  /** The tag round trip of the edit form: parsing the ", "-joined tags of a
      note gives back its tags whenever each is non-empty, trimmed and comma-free. */
  lemma {:induction false} ParseJoinTags(ts: seq<string>)
    requires AllTags(ts)
    ensures ParseTags(JoinTags(ts)) == ts
  {
    if ts == [] {
      ParseTagsEmpty();
    } else if |ts| == 1 {
      ParseJoinSingle(ts);
    } else {
      var tail := ts[1..];
      AllTagsTail(ts);
      ParseJoinTags(tail);
      ParseJoinStep(ts);
      assert ts == [ts[0]] + tail;
    }
  }

  lemma ParseJoinSingle(ts: seq<string>)
    requires |ts| == 1 && IsTag(ts[0])
    ensures ParseTags(JoinTags(ts)) == ts
  {
    var t := ts[0];
    Singleton(ts);
    assert JoinTags(ts) == t;
    ParseTagsSingle(t);
  }

  lemma AllTagsTail(ts: seq<string>)
    requires ts != [] && AllTags(ts)
    ensures IsTag(ts[0]) && AllTags(ts[1..])
  {
    var tail := ts[1..];
    forall i | 0 <= i < |tail| ensures IsTag(tail[i]) { assert tail[i] == ts[i + 1]; }
  }

  lemma ParseJoinStep(ts: seq<string>)
    requires |ts| > 1 && IsTag(ts[0])
    ensures ParseTags(JoinTags(ts)) == [ts[0]] + ParseTags(JoinTags(ts[1..]))
  {
    JoinTagsCons(ts);
    ParseTagsCons(ts[0], JoinTags(ts[1..]));
  }

  lemma JoinTagsCons(ts: seq<string>)
    requires |ts| > 1
    ensures JoinTags(ts) == ts[0] + [','] + (" " + JoinTags(ts[1..]))
  {
    assert ", " == [','] + " ";
  }

  lemma ParseTagsEmpty()
    ensures ParseTags("") == []
  {
    assert Split("", ',') == [""];
    assert TrimAll([""]) == [Trim("")] + TrimAll([]);
  }

  lemma ParseTagsSingle(t: string)
    requires IsTag(t)
    ensures ParseTags(t) == [t]
  {
    assert Split(t, ',') == [t];
    assert TrimAll([t]) == [Trim(t)] + TrimAll([]);
    assert KeepNonEmpty([t]) == [t] + KeepNonEmpty([]);
  }

  /** One step of the round trip: a tag, then `", "`, then the rest. */
  lemma ParseTagsCons(t: string, rest: string)
    requires IsTag(t)
    ensures ParseTags(t + [','] + (" " + rest)) == [t] + ParseTags(rest)
  {
    SplitPieceThenSep(t, ',', " " + rest);
    TrimAllCons(t, Split(" " + rest, ','));
    TrimAllSplitSpace(rest);
    KeepNonEmptyCons(t, TrimAll(Split(rest, ',')));
  }

  /** ASCII `toLowerCase`. */
  function LowerChar(c: char): (r: char)
    ensures 'A' <= c <= 'Z' ==> 'a' <= r <= 'z' && r as int == c as int + 32
    ensures !('A' <= c <= 'Z') ==> r == c
  {
    if 'A' <= c <= 'Z' then (c as int - 'A' as int + 'a' as int) as char else c
  }

  function Lower(s: string): (r: string)
    ensures |r| == |s|
    ensures forall i :: 0 <= i < |s| ==> r[i] == LowerChar(s[i])
  {
    if s == [] then [] else [LowerChar(s[0])] + Lower(s[1..])
  }

  /** Lower-casing twice is lower-casing once. */
  lemma LowerIdempotent(s: string)
    ensures Lower(Lower(s)) == Lower(s)
  {
    assert forall i :: 0 <= i < |s| ==> LowerChar(LowerChar(s[i])) == LowerChar(s[i]);
  }

  /** `needle` occurs in `hay` starting at position `i`. */
  predicate OccursAt(hay: string, needle: string, i: nat) {
    i + |needle| <= |hay| && hay[i..i + |needle|] == needle
  }

  /** `String.prototype.includes`. */
  function Contains(hay: string, needle: string): (r: bool)
    ensures needle == [] ==> r
    ensures hay == needle ==> r
    ensures |needle| > |hay| ==> !r
  {
    assert OccursAt(hay, [], 0);
    assert hay[0..|hay|] == hay;
    assert OccursAt(hay, hay, 0);
    exists i: nat :: i <= |hay| && OccursAt(hay, needle, i)
  }

  /** `String.prototype.substring(start, end)`: both indices clamped to
      `[0, |s|]`, and swapped when `start > end`. */
  function Substring(s: string, start: int, end: int): (r: string)
    ensures 0 <= start <= end <= |s| ==> r == s[start..end]
  {
    var a := if start < 0 then 0 else if start > |s| then |s| else start;
    var b := if end < 0 then 0 else if end > |s| then |s| else end;
    if a <= b then s[a..b] else s[b..a]
  }

  /** The editor's markdown button: replaces the selected text
      `content[start..end]` by `markdown` and puts the caret just after it. */
  function InsertMarkdown(content: string, start: int, end: int, markdown: string): (r: (string, int))
    ensures 0 <= start <= end <= |content| ==>
      r.0 == content[..start] + markdown + content[end..] &&
      r.1 == start + |markdown| && r.1 <= |r.0| &&
      r.0[start..r.1] == markdown
  {
    (Substring(content, 0, start) + markdown + Substring(content, end, |content|), start + |markdown|)
  }

  /** With nothing selected, cutting the inserted text back out restores the content. */
  lemma InsertMarkdownUndo(content: string, at: nat, markdown: string)
    requires at <= |content|
    ensures var (c, caret) := InsertMarkdown(content, at, at, markdown);
      0 <= caret - |markdown| && caret <= |c| &&
      c[..caret - |markdown|] + c[caret..] == content
  {
    var (c, caret) := InsertMarkdown(content, at, at, markdown);
    assert c == content[..at] + markdown + content[at..];
    assert c[..at] == content[..at];
    assert c[caret..] == content[at..];
  }

  /** Number of maximal runs of white space (from the end, one character at a time). */
  function SpaceRuns(s: string): nat {
    if s == [] then 0
    else
      var last := if IsSpace(s[|s| - 1]) && (|s| == 1 || !IsSpace(s[|s| - 2])) then 1 else 0;
      SpaceRuns(s[..|s| - 1]) + last
  }

  /** `s.split(/\s+/).length`: one more piece than there are runs of white space. */
  function SplitOnSpaceCount(s: string): nat {
    SpaceRuns(s) + 1
  }

  /** `content ? content.trim().split(/\s+/).length : 0`. */
  function WordCount(content: string): (r: nat)
    ensures r == 0 <==> content == ""
  {
    if content == "" then 0 else SplitOnSpaceCount(Trim(content))
  }

  /** Reference count of words: positions where a non-blank character follows
      white space or the start of the text. */
  function Words(s: string): nat {
    if s == [] then 0
    else
      var last := if !IsSpace(s[|s| - 1]) && (|s| == 1 || IsSpace(s[|s| - 2])) then 1 else 0;
      Words(s[..|s| - 1]) + last
  }

  /** In a text that starts with a word, words and blank runs alternate. */
  lemma {:induction false} WordsVersusRuns(s: string)
    requires s != [] && !IsSpace(s[0])
    ensures Words(s) == SpaceRuns(s) + (if IsSpace(s[|s| - 1]) then 0 else 1)
  {
    if |s| > 1 {
      var p := s[..|s| - 1];
      assert p[0] == s[0];
      WordsVersusRuns(p);
      assert p[|p| - 1] == s[|s| - 2];
    }
  }

  /** Trailing white space holds no word. */
  lemma {:induction false} WordsDropTrailing(s: string, n: nat)
    requires n <= |s| && AllSpace(s[n..])
    ensures Words(s[..n]) == Words(s)
    decreases |s| - n
  {
    if n < |s| {
      var p := s[..|s| - 1];
      assert p[..n] == s[..n];
      assert p[n..] == s[n..|s| - 1];
      assert AllSpace(p[n..]) by {
        forall i | 0 <= i < |p[n..]| ensures IsSpace(p[n..][i]) { assert p[n..][i] == s[n..][i]; }
      }
      WordsDropTrailing(p, n);
      assert IsSpace(s[|s| - 1]) by { assert s[|s| - 1] == s[n..][|s| - 1 - n]; }
    } else {
      assert s[..n] == s;
    }
  }

  /** Leading white space holds no word. */
  lemma {:induction false} WordsDropLeading(w: string, x: string)
    requires AllSpace(w)
    ensures Words(w + x) == Words(x)
    decreases |x|
  {
    if x == [] {
      assert w + x == w;
      WordsAllSpace(w);
    } else {
      var x' := x[..|x| - 1];
      WordsDropLeading(w, x');
      var s := w + x;
      assert s[..|s| - 1] == w + x';
      assert s[|s| - 1] == x[|x| - 1];
      if |x'| > 0 {
        assert s[|s| - 2] == x[|x| - 2];
      } else if |w| > 0 {
        assert s[|s| - 2] == w[|w| - 1];
      }
    }
  }

  lemma {:induction false} WordsAllSpace(w: string)
    requires AllSpace(w)
    ensures Words(w) == 0
  {
    if w != [] {
      var p := w[..|w| - 1];
      assert AllSpace(p) by {
        forall i | 0 <= i < |p| ensures IsSpace(p[i]) { assert p[i] == w[i]; }
      }
      WordsAllSpace(p);
    }
  }

  /** The editor's word count is the number of words, except that a non-empty
      text of white space only counts as one word (`"".split(/\s+/)` is `[""]`). */
  lemma WordCountMeaning(content: string)
    ensures content == "" ==> WordCount(content) == 0
    ensures content != "" && AllSpace(content) ==> WordCount(content) == 1
    ensures !AllSpace(content) ==> WordCount(content) == Words(content)
  {
    if content != "" && !AllSpace(content) {
      var t := Trim(content);
      WordsOfTrim(content);
      WordsVersusRuns(t);
    }
  }

  /** Trimming removes no word. */
  lemma WordsOfTrim(s: string)
    ensures Words(Trim(s)) == Words(s)
  {
    var a := TrimStart(s);
    var k := |s| - |a|;
    SplitAt(s, k);
    WordsDropLeading(s[..k], a);
    WordsDropTrailing(a, |TrimEnd(a)|);
  }
}
