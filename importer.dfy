/**
  The import orchestration of `FlomoImporter`: where each memo is written,
  how its placeholders are resolved, how memos are grouped per destination
  file in `flomo.files`, and the step sequence of `import`. File-system work is
  recorded as a log of effects instead of being performed.
*/
module Importer {
  import opened Wrappers
  import opened Strings
  import opened Core

  /** The settings `FlomoImporter` reads. */
  datatype Config = Config(
    flomoTarget: string,
    memoTarget: string,
    mergeByDate: bool,
    allowBiLink: bool,
    optionsMoments: string,
    optionsCanvas: string,
    rawDir: string,
    baseDir: string)

  /** The two integration hooks `import` may run after the memos are written. */
  datatype Hook = Moments | Canvas

  /** The file-system work the importer asks for, in the order it asks for it. */
  datatype Effect =
    | EnsureDir(dir: string)
    | Unpack(archive: string, dest: string)
    | CopyDir(from: string, to: string)
    | ReadPage(path: string)
    | Write(path: string, text: string)
    | RunHook(hook: Hook)
    | RemoveDir(dir: string)

  // ---------------------------------------------------------------------------
  // Destination paths
  // ---------------------------------------------------------------------------

  /** `${flomoTarget}/${memoTarget}/${memo.date}`. */
  function MemoSubDir(cfg: Config, memo: Memo): string {
    cfg.flomoTarget + "/" + cfg.memoTarget + "/" + memo.date
  }

  /**
    The file the memo at position `idx` (of `count`) goes to: one file per date
    when merging, otherwise one per memo, numbered from `count` down to 1.
  */
  function MemoFilePath(cfg: Config, memo: Memo, idx: nat, count: nat): (p: string)
    requires idx < count
    ensures StartsWith(p, MemoSubDir(cfg, memo) + "/memo@") && EndsWith(p, ".md")
  {
    if cfg.mergeByDate then MemoSubDir(cfg, memo) + "/memo@" + memo.date + ".md"
    else MemoSubDir(cfg, memo) + "/memo@" + memo.title + "_" + NatToString(count - idx) + ".md"
  }

  /** The destination of every memo, in processing order. */
  function MemoPaths(cfg: Config, memos: seq<Memo>): (ps: seq<string>)
    ensures |ps| == |memos|
  {
    seq(|memos|, i requires 0 <= i < |memos| => MemoFilePath(cfg, memos[i], i, |memos|))
  }

  /** The text after the last `c` of `s` (all of `s` when there is none). */
  function AfterLast(s: string, c: char): string
    decreases |s|
  {
    if |s| == 0 || s[|s| - 1] == c then ""
    else AfterLast(s[..|s| - 1], c) + [s[|s| - 1]]
  }

  lemma {:induction false} AfterLastOf(a: string, c: char, d: string)
    requires c !in d
    ensures AfterLast(a + [c] + d, c) == d
    decreases |d|
  {
    var s := a + [c] + d;
    if |d| > 0 {
      assert s[..|s| - 1] == a + [c] + d[..|d| - 1];
      assert c !in d[..|d| - 1];
      AfterLastOf(a, c, d[..|d| - 1]);
      assert d == d[..|d| - 1] + [d[|d| - 1]];
    } else {
      assert s[|s| - 1] == c;
    }
  }

  /** Without merging, the memo's number can be read back from its path. */
  lemma PathNumber(cfg: Config, memo: Memo, idx: nat, count: nat)
    requires !cfg.mergeByDate && idx < count
    ensures var path := MemoFilePath(cfg, memo, idx, count);
      EndsWith(path, ".md") && AfterLast(path[..|path| - 3], '_') == NatToString(count - idx)
  {
    var path := MemoFilePath(cfg, memo, idx, count);
    var a := MemoSubDir(cfg, memo) + "/memo@" + memo.title;
    var d := NatToString(count - idx);
    assert path == a + ['_'] + d + ".md";
    assert path[..|path| - 3] == a + ['_'] + d;
    assert '_' !in d;
    AfterLastOf(a, '_', d);
  }

  /** Without merging, memos at different positions get different paths. */
  lemma PathsDiffer(cfg: Config, m1: Memo, i1: nat, m2: Memo, i2: nat, count: nat)
    requires !cfg.mergeByDate && i1 < count && i2 < count && i1 != i2
    ensures MemoFilePath(cfg, m1, i1, count) != MemoFilePath(cfg, m2, i2, count)
  {
    PathNumber(cfg, m1, i1, count);
    PathNumber(cfg, m2, i2, count);
    if MemoFilePath(cfg, m1, i1, count) == MemoFilePath(cfg, m2, i2, count) {
      NatToStringInjective(count - i1, count - i2);
    }
  }

  /**
    Without merging every memo gets its own file: the numbers `count - idx` are
    distinct and hold no `_`, so no two positions share a path.
  */
  lemma PathsDistinct(cfg: Config, memos: seq<Memo>)
    requires !cfg.mergeByDate
    ensures var ps := MemoPaths(cfg, memos);
      forall i, j :: 0 <= i < j < |ps| ==> ps[i] != ps[j]
  {
    var ps := MemoPaths(cfg, memos);
    forall i, j | 0 <= i < j < |ps|
      ensures ps[i] != ps[j]
    {
      PathsDiffer(cfg, memos[i], i, memos[j], j, |memos|);
    }
  }

  /** When merging, two memos share a file exactly when they share a date. */
  lemma MergedPathsByDate(cfg: Config, m1: Memo, i1: nat, m2: Memo, i2: nat, count: nat)
    requires cfg.mergeByDate && i1 < count && i2 < count
    ensures MemoFilePath(cfg, m1, i1, count) == MemoFilePath(cfg, m2, i2, count) <==> m1.date == m2.date
  {
    if MemoFilePath(cfg, m1, i1, count) == MemoFilePath(cfg, m2, i2, count) {
      MergedPathDate(cfg, m1, i1, m2, i2, count);
    }
  }

  lemma MergedPathDate(cfg: Config, m1: Memo, i1: nat, m2: Memo, i2: nat, count: nat)
    requires cfg.mergeByDate && i1 < count && i2 < count
    requires MemoFilePath(cfg, m1, i1, count) == MemoFilePath(cfg, m2, i2, count)
    ensures m1.date == m2.date
  {
    var pre := cfg.flomoTarget + "/" + cfg.memoTarget + "/";
    var p1 := MemoFilePath(cfg, m1, i1, count);
    var p2 := MemoFilePath(cfg, m2, i2, count);
    assert p1[|pre|..] == m1.date + "/memo@" + m1.date + ".md";
    assert p2[|pre|..] == m2.date + "/memo@" + m2.date + ".md";
    DoubledDate(m1.date, m2.date);
  }

  lemma DoubledDate(d1: string, d2: string)
    requires d1 + "/memo@" + d1 + ".md" == d2 + "/memo@" + d2 + ".md"
    ensures d1 == d2
  {
    var x := d1 + "/memo@" + d1 + ".md";
    assert |x| == 2 * |d1| + 9 == 2 * |d2| + 9;
    assert x[..|d1|] == d1;
    assert (d2 + "/memo@" + d2 + ".md")[..|d2|] == d2;
  }

  // ---------------------------------------------------------------------------
  // Placeholder resolution
  // ---------------------------------------------------------------------------

  /** Where attachments live in the vault: `${flomoTarget}/files/`, or `files/` at the vault root. */
  function FilesBase(cfg: Config): string {
    if cfg.flomoTarget != "" then cfg.flomoTarget + "/files/" else "files/"
  }

  /** Step 1: every highlight placeholder becomes `==`. */
  function ResolveHighlights(content: string): string {
    ReplaceAll(content, Highlight, "==", false)
  }

  /** Step 2: every attachment placeholder becomes the attachment folder. */
  function ResolveFiles(content: string, cfg: Config, files: FilesPlaceholder): string {
    ReplaceAll(content, files, FilesBase(cfg), false)
  }

  /** Step 3, with bi-links allowed: the first `\[\[` and then the first `\]\]` are unescaped. */
  function UnescapeBiLinks(content: string): string {
    ReplaceFirst(ReplaceFirst(content, "\\[\\[", "[["), "\\]\\]", "]]")
  }

  /** The content closure of `importMemos`. */
  function ResolveContent(content: string, cfg: Config, files: FilesPlaceholder): string {
    var withFilesDir := ResolveFiles(ResolveHighlights(content), cfg, files);
    if cfg.allowBiLink then UnescapeBiLinks(withFilesDir) else withFilesDir
  }

  /**
    After step 1 no highlight placeholder is left, each one became `==`, and a
    text without one is unchanged.
  */
  lemma HighlightsResolved(content: string, rest: string)
    ensures !Contains(ResolveHighlights(content), Highlight, false)
    ensures ResolveHighlights(Highlight + rest) == "==" + ResolveHighlights(rest)
    ensures !Contains(content, Highlight, false) ==> ResolveHighlights(content) == content
  {
    ReplaceAllLeaves(content, Highlight, "==", Highlight);
    ReplaceAllAtPattern(rest, Highlight, "==", false);
    if !Contains(content, Highlight, false) {
      ReplaceAllNoMatch(content, Highlight, "==", false);
    }
  }

  /**
    Step 2 puts the attachment folder in place of each placeholder: under the
    target folder when one is set, at the vault root otherwise.
  */
  lemma FilesResolved(content: string, rest: string, cfg: Config, files: FilesPlaceholder)
    ensures ResolveFiles(files + rest, cfg, files) == FilesBase(cfg) + ResolveFiles(rest, cfg, files)
    ensures cfg.flomoTarget == "" ==> FilesBase(cfg) == "files/"
    ensures cfg.flomoTarget != "" ==> FilesBase(cfg) == cfg.flomoTarget + "/files/"
    ensures !Contains(content, files, false) ==> ResolveFiles(content, cfg, files) == content
  {
    ReplaceAllAtPattern(rest, files, FilesBase(cfg), false);
    if !Contains(content, files, false) {
      ReplaceAllNoMatch(content, files, FilesBase(cfg), false);
    }
  }

  /**
    Unescaping changes only the first `\[\[`: everything after it is returned
    as it was, including any later `\[\[`.
  */
  lemma UnescapeFirstOnly(u: string, v: string)
    requires forall j :: 0 <= j < |u| ==> !MatchesAt(u + "\\[\\[" + v, j, "\\[\\[", false)
    ensures ReplaceFirst(u + "\\[\\[" + v, "\\[\\[", "[[") == u + "[[" + v
  {
    var s := u + "\\[\\[" + v;
    assert s[|u|..|u| + 4] == "\\[\\[";
    assert MatchesAt(s, |u|, "\\[\\[", false);
    ReplaceFirstSpec(s, "\\[\\[", "[[", |u|);
    assert s[..|u|] == u && s[|u| + 4..] == v;
  }

  /** Text that holds no placeholder and no backslash comes through resolution unchanged. */
  lemma ResolvePlainText(content: string, cfg: Config, files: FilesPlaceholder)
    requires !Contains(content, Highlight, false) && !Contains(content, files, false)
    requires '\\' !in content
    ensures ResolveContent(content, cfg, files) == content
  {
    HighlightsResolved(content, "");
    FilesResolved(content, "", cfg, files);
    WithoutFirstChar(content, "\\[\\[");
    WithoutFirstChar(content, "\\]\\]");
  }

  /** The resolved content of every memo, in processing order. */
  function ResolvedContents(cfg: Config, memos: seq<Memo>, files: FilesPlaceholder): (cs: seq<string>)
    ensures |cs| == |memos|
  {
    seq(|memos|, i requires 0 <= i < |memos| => ResolveContent(memos[i].content, cfg, files))
  }

  // ---------------------------------------------------------------------------
  // Grouping into `flomo.files`
  // ---------------------------------------------------------------------------

  /**
    The dictionary after appending `cs[i]` under `ps[i]` for every `i` in
    order, creating a key with no pieces the first time it is seen.
  */
  function Grouped(m: map<string, seq<string>>, ps: seq<string>, cs: seq<string>): map<string, seq<string>>
    requires |ps| == |cs|
    decreases |ps|
  {
    if |ps| == 0 then m
    else
      var g := Grouped(m, ps[..|ps| - 1], cs[..|cs| - 1]);
      var p := ps[|ps| - 1];
      g[p := (if p in g then g[p] else []) + [cs[|cs| - 1]]]
  }

  /** The key order after those appends: a path joins the end the first time it is seen. */
  function FirstSeen(order: seq<string>, ps: seq<string>): seq<string>
    decreases |ps|
  {
    if |ps| == 0 then order
    else
      var o := FirstSeen(order, ps[..|ps| - 1]);
      if ps[|ps| - 1] in o then o else o + [ps[|ps| - 1]]
  }

  /** The pieces destined for `p`: the `cs[i]` with `ps[i] == p`, in order. */
  function PiecesFor(ps: seq<string>, cs: seq<string>, p: string): seq<string>
    requires |ps| == |cs|
    decreases |ps|
  {
    if |ps| == 0 then []
    else PiecesFor(ps[..|ps| - 1], cs[..|cs| - 1], p) + (if ps[|ps| - 1] == p then [cs[|cs| - 1]] else [])
  }

  /** The number of pieces held under the keys of `order`. */
  function PieceCount(m: map<string, seq<string>>, order: seq<string>): nat
    requires forall k :: k in order ==> k in m
    decreases |order|
  {
    if |order| == 0 then 0
    else PieceCount(m, order[..|order| - 1]) + |m[order[|order| - 1]]|
  }

  /**
    Grouping keeps every earlier piece and appends each memo's content, in
    processing order, under its path: the keys are the old keys and the paths.
  */
  lemma {:induction false} GroupedPieces(m: map<string, seq<string>>, ps: seq<string>, cs: seq<string>, p: string)
    requires |ps| == |cs|
    ensures p in Grouped(m, ps, cs) <==> p in m || p in ps
    ensures p in Grouped(m, ps, cs) ==>
      Grouped(m, ps, cs)[p] == (if p in m then m[p] else []) + PiecesFor(ps, cs, p)
    decreases |ps|
  {
    if |ps| > 0 {
      var ps', cs' := ps[..|ps| - 1], cs[..|cs| - 1];
      GroupedPieces(m, ps', cs', p);
      assert ps == ps' + [ps[|ps| - 1]];
      if p !in m && p !in ps' {
        PiecesForAbsent(ps', cs', p);
      }
    }
  }

  /** One more memo: the dictionary and the key order after `idx + 1` memos, from those after `idx`. */
  lemma GroupStep(m: map<string, seq<string>>, order: seq<string>, ps: seq<string>, cs: seq<string>, idx: nat)
    requires idx < |ps| == |cs|
    ensures var g := Grouped(m, ps[..idx], cs[..idx]);
      Grouped(m, ps[..idx + 1], cs[..idx + 1]) == g[ps[idx] := (if ps[idx] in g then g[ps[idx]] else []) + [cs[idx]]]
    ensures var o := FirstSeen(order, ps[..idx]);
      FirstSeen(order, ps[..idx + 1]) == if ps[idx] in o then o else o + [ps[idx]]
  {
    assert ps[..idx + 1][..idx] == ps[..idx] && cs[..idx + 1][..idx] == cs[..idx];
  }

  lemma {:induction false} PiecesForAbsent(ps: seq<string>, cs: seq<string>, p: string)
    requires |ps| == |cs| && p !in ps
    ensures PiecesFor(ps, cs, p) == []
    decreases |ps|
  {
    if |ps| > 0 {
      assert p !in ps[..|ps| - 1];
      PiecesForAbsent(ps[..|ps| - 1], cs[..|cs| - 1], p);
    }
  }

  /** Grouping keeps the dictionary and its key order in step. */
  lemma {:induction false} GroupedKeyOrder(m: map<string, seq<string>>, order: seq<string>, ps: seq<string>, cs: seq<string>)
    requires |ps| == |cs| && KeyOrder(m, order)
    ensures KeyOrder(Grouped(m, ps, cs), FirstSeen(order, ps))
    decreases |ps|
  {
    if |ps| > 0 {
      GroupedKeyOrder(m, order, ps[..|ps| - 1], cs[..|cs| - 1]);
    }
  }

  /** The key order starts with the old keys; a new path comes before another when it was seen first. */
  lemma {:induction false} FirstSeenOrder(order: seq<string>, ps: seq<string>)
    ensures var o := FirstSeen(order, ps);
      |o| >= |order| && o[..|order|] == order
      && (forall k :: k in o <==> k in order || k in ps)
      && (forall a :: |order| <= a < |o| ==> o[a] in ps)
      && forall a, b :: |order| <= a < b < |o| ==>
        exists i :: 0 <= i < |ps| && ps[i] == o[a] && forall j :: 0 <= j <= i ==> ps[j] != o[b]
    decreases |ps|
  {
    if |ps| > 0 {
      var ps' := ps[..|ps| - 1];
      var p := ps[|ps| - 1];
      FirstSeenOrder(order, ps');
      var o' := FirstSeen(order, ps');
      var o := FirstSeen(order, ps);
      assert ps == ps' + [p];
      forall a, b | |order| <= a < b < |o|
        ensures exists i :: 0 <= i < |ps| && ps[i] == o[a] && forall j :: 0 <= j <= i ==> ps[j] != o[b]
      {
        if b < |o'| {
          var i :| 0 <= i < |ps'| && ps'[i] == o'[a] && forall j :: 0 <= j <= i ==> ps'[j] != o'[b];
          assert ps[i] == o[a];
        } else {
          assert o == o' + [p] && o[b] == p && p !in ps';
          assert o[a] == o'[a] && o'[a] in ps';
          var i :| 0 <= i < |ps'| && ps'[i] == o[a];
          assert ps[i] == o[a];
        }
      }
    }
  }

  lemma {:induction false} PieceCountSame(m: map<string, seq<string>>, m': map<string, seq<string>>, order: seq<string>)
    requires forall k :: k in order ==> k in m && k in m' && m[k] == m'[k]
    ensures PieceCount(m, order) == PieceCount(m', order)
    decreases |order|
  {
    if |order| > 0 {
      PieceCountSame(m, m', order[..|order| - 1]);
    }
  }

  lemma {:induction false} PieceCountUpdate(m: map<string, seq<string>>, order: seq<string>, p: string, v: seq<string>)
    requires forall k :: k in order ==> k in m
    requires forall i, j :: 0 <= i < j < |order| ==> order[i] != order[j]
    requires p in order
    ensures PieceCount(m[p := v], order) == PieceCount(m, order) - |m[p]| + |v|
    decreases |order|
  {
    var order' := order[..|order| - 1];
    var last := order[|order| - 1];
    if last == p {
      assert p !in order';
      PieceCountSame(m, m[p := v], order');
    } else {
      assert p in order';
      PieceCountUpdate(m, order', p, v);
    }
  }

  /** Every memo adds exactly one piece: the pieces under all keys grow by the number of memos. */
  lemma {:induction false} TotalPieces(m: map<string, seq<string>>, order: seq<string>, ps: seq<string>, cs: seq<string>)
    requires |ps| == |cs| && KeyOrder(m, order)
    ensures KeyOrder(Grouped(m, ps, cs), FirstSeen(order, ps))
    ensures PieceCount(Grouped(m, ps, cs), FirstSeen(order, ps)) == PieceCount(m, order) + |ps|
    decreases |ps|
  {
    GroupedKeyOrder(m, order, ps, cs);
    if |ps| > 0 {
      var ps', cs' := ps[..|ps| - 1], cs[..|cs| - 1];
      TotalPieces(m, order, ps', cs');
      var g := Grouped(m, ps', cs');
      var o := FirstSeen(order, ps');
      var p := ps[|ps| - 1];
      var v := (if p in g then g[p] else []) + [cs[|cs| - 1]];
      if p in o {
        PieceCountUpdate(g, o, p, v);
      } else {
        PieceCountSame(g, g[p := v], o);
        assert (o + [p])[..|o|] == o;
      }
    }
  }

  /** With distinct paths every key holds exactly its own memo's piece, and the keys keep processing order. */
  lemma DistinctPathsOnePiece(ps: seq<string>, cs: seq<string>)
    requires |ps| == |cs|
    requires forall i, j :: 0 <= i < j < |ps| ==> ps[i] != ps[j]
    ensures FirstSeen([], ps) == ps
    ensures forall i :: 0 <= i < |ps| ==> PiecesFor(ps, cs, ps[i]) == [cs[i]]
  {
    FirstSeenDistinct(ps);
    forall i | 0 <= i < |ps|
      ensures PiecesFor(ps, cs, ps[i]) == [cs[i]]
    {
      PiecesForDistinct(ps, cs, i);
    }
  }

  lemma {:induction false} FirstSeenDistinct(ps: seq<string>)
    requires forall i, j :: 0 <= i < j < |ps| ==> ps[i] != ps[j]
    ensures FirstSeen([], ps) == ps
    decreases |ps|
  {
    if |ps| > 0 {
      var ps' := ps[..|ps| - 1];
      FirstSeenDistinct(ps');
      assert ps[|ps| - 1] !in ps';
      assert ps' + [ps[|ps| - 1]] == ps;
    }
  }

  lemma {:induction false} PiecesForDistinct(ps: seq<string>, cs: seq<string>, i: nat)
    requires |ps| == |cs| && i < |ps|
    requires forall a, b :: 0 <= a < b < |ps| ==> ps[a] != ps[b]
    ensures PiecesFor(ps, cs, ps[i]) == [cs[i]]
    decreases |ps|
  {
    var ps', cs' := ps[..|ps| - 1], cs[..|cs| - 1];
    if i == |ps| - 1 {
      assert ps[i] !in ps';
      PiecesForAbsent(ps', cs', ps[i]);
    } else {
      assert ps'[i] == ps[i] && cs'[i] == cs[i];
      assert ps[|ps| - 1] != ps[i];
      PiecesForDistinct(ps', cs', i);
    }
  }

  // ---------------------------------------------------------------------------
  // importMemos
  // ---------------------------------------------------------------------------

  /** What the pieces of one file are joined with. */
  const PieceSeparator := "\n\n---\n\n"

  /** The `mkdirp` of each memo's folder, in processing order. */
  function DirEffects(cfg: Config, memos: seq<Memo>): (es: seq<Effect>)
    ensures |es| == |memos|
  {
    seq(|memos|, i requires 0 <= i < |memos| => EnsureDir(cfg.baseDir + "/" + MemoSubDir(cfg, memos[i])))
  }

  lemma DirEffectsSnoc(cfg: Config, memos: seq<Memo>, i: nat)
    requires i < |memos|
    ensures DirEffects(cfg, memos[..i + 1]) == DirEffects(cfg, memos[..i]) + [EnsureDir(cfg.baseDir + "/" + MemoSubDir(cfg, memos[i]))]
  {
    var a := DirEffects(cfg, memos[..i + 1]);
    var b := DirEffects(cfg, memos[..i]) + [EnsureDir(cfg.baseDir + "/" + MemoSubDir(cfg, memos[i]))];
    forall k | 0 <= k < |a|
      ensures a[k] == b[k]
    {
      assert memos[..i + 1][k] == memos[k];
      if k < i {
        assert memos[..i][k] == memos[k];
      }
    }
  }

  /** One write per key of `order`, of its pieces joined by the separator. */
  function WriteEffects(files: map<string, seq<string>>, order: seq<string>): (es: seq<Effect>)
    requires forall k :: k in order ==> k in files
    ensures |es| == |order|
  {
    seq(|order|, j requires 0 <= j < |order| => Write(order[j], Join(files[order[j]], PieceSeparator)))
  }

  /**
    With keys in insertion order, every key is written exactly once, with its
    pieces joined; a file with a single piece holds exactly that piece.
  */
  lemma WrittenOnce(files: map<string, seq<string>>, order: seq<string>)
    requires KeyOrder(files, order)
    ensures var ws := WriteEffects(files, order);
      (forall p :: p in files <==> exists j :: 0 <= j < |ws| && ws[j].path == p)
      && (forall j1, j2 :: 0 <= j1 < j2 < |ws| ==> ws[j1].path != ws[j2].path)
      && (forall j :: 0 <= j < |ws| ==> ws[j].Write? && ws[j].text == Join(files[ws[j].path], PieceSeparator))
      && (forall j, x :: 0 <= j < |ws| && files[ws[j].path] == [x] ==> ws[j].text == x)
  {
    var ws := WriteEffects(files, order);
    forall p | p in files
      ensures exists j :: 0 <= j < |ws| && ws[j].path == p
    {
      var j :| 0 <= j < |order| && order[j] == p;
      assert ws[j].path == p;
    }
  }

  /**
    `importMemos`: each memo's resolved content is appended, in order, under
    its path in `flomo.files` (the key is created on first use), then every key
    is written once with its pieces joined.
  */
  method ImportMemos(flomo: FlomoCore, cfg: Config, files: FilesPlaceholder) returns (log: seq<Effect>)
    requires flomo.Valid()
    modifies flomo
    ensures flomo.memos == old(flomo.memos) && flomo.tags == old(flomo.tags)
    ensures flomo.files == Grouped(old(flomo.files), MemoPaths(cfg, flomo.memos), ResolvedContents(cfg, flomo.memos, files))
    ensures flomo.fileOrder == FirstSeen(old(flomo.fileOrder), MemoPaths(cfg, flomo.memos))
    ensures flomo.Valid()
    ensures log == DirEffects(cfg, flomo.memos) + WriteEffects(flomo.files, flomo.fileOrder)
  {
    var dirs := GroupMemos(flomo, cfg, files);
    var writes := WriteFiles(flomo.files, flomo.fileOrder);
    log := dirs + writes;
  }

  /** The first loop of `importMemos`: the folder of each memo, then its piece appended under its path. */
  method GroupMemos(flomo: FlomoCore, cfg: Config, files: FilesPlaceholder) returns (log: seq<Effect>)
    requires flomo.Valid()
    modifies flomo
    ensures flomo.memos == old(flomo.memos) && flomo.tags == old(flomo.tags)
    ensures flomo.files == Grouped(old(flomo.files), MemoPaths(cfg, flomo.memos), ResolvedContents(cfg, flomo.memos, files))
    ensures flomo.fileOrder == FirstSeen(old(flomo.fileOrder), MemoPaths(cfg, flomo.memos))
    ensures flomo.Valid()
    ensures log == DirEffects(cfg, flomo.memos)
  {
    var memos := flomo.memos;
    ghost var ps := MemoPaths(cfg, memos);
    ghost var cs := ResolvedContents(cfg, memos, files);
    ghost var m0, o0 := flomo.files, flomo.fileOrder;
    log := [];
    for idx := 0 to |memos|
      invariant flomo.memos == memos && flomo.tags == old(flomo.tags)
      invariant flomo.files == Grouped(m0, ps[..idx], cs[..idx])
      invariant flomo.fileOrder == FirstSeen(o0, ps[..idx])
      invariant flomo.Valid()
      invariant log == DirEffects(cfg, memos[..idx])
    {
      var e := AddMemo(flomo, cfg, files, idx);
      log := log + [e];
      GroupStep(m0, o0, ps, cs, idx);
      DirEffectsSnoc(cfg, memos, idx);
    }
    assert ps[..|memos|] == ps && cs[..|memos|] == cs && memos[..|memos|] == memos;
  }

  /**
    One turn of the first loop of `importMemos`: the memo's folder, its path,
    its resolved content appended under the path.
  */
  method AddMemo(flomo: FlomoCore, cfg: Config, files: FilesPlaceholder, idx: nat) returns (e: Effect)
    requires flomo.Valid() && idx < |flomo.memos|
    modifies flomo
    ensures flomo.memos == old(flomo.memos) && flomo.tags == old(flomo.tags)
    ensures e == EnsureDir(cfg.baseDir + "/" + MemoSubDir(cfg, flomo.memos[idx]))
    ensures var p := MemoPaths(cfg, flomo.memos)[idx];
      flomo.files == old(flomo.files)[p := (if p in old(flomo.files) then old(flomo.files)[p] else [])
        + [ResolvedContents(cfg, flomo.memos, files)[idx]]]
      && flomo.fileOrder == if p in old(flomo.fileOrder) then old(flomo.fileOrder) else old(flomo.fileOrder) + [p]
    ensures flomo.Valid()
  {
    var memo := flomo.memos[idx];
    var memoSubDir := MemoSubDir(cfg, memo);
    var memoFilePath := MemoFilePath(cfg, memo, idx, |flomo.memos|);
    e := EnsureDir(cfg.baseDir + "/" + memoSubDir);
    var content := ResolveContent(memo.content, cfg, files);
    AppendPiece(flomo, memoFilePath, content);
  }

  /** The body of the first loop of `importMemos`: create the key on first use, then push the piece. */
  method AppendPiece(flomo: FlomoCore, path: string, piece: string)
    requires flomo.Valid()
    modifies flomo
    ensures flomo.memos == old(flomo.memos) && flomo.tags == old(flomo.tags)
    ensures flomo.files == old(flomo.files)[path := (if path in old(flomo.files) then old(flomo.files)[path] else []) + [piece]]
    ensures flomo.fileOrder == if path in old(flomo.fileOrder) then old(flomo.fileOrder) else old(flomo.fileOrder) + [path]
    ensures flomo.Valid()
  {
    if path !in flomo.files {
      flomo.files := flomo.files[path := []];
      flomo.fileOrder := flomo.fileOrder + [path];
    }
    flomo.files := flomo.files[path := flomo.files[path] + [piece]];
  }

  /** The second loop of `importMemos`: one write per key, in key order. */
  method WriteFiles(table: map<string, seq<string>>, order: seq<string>) returns (writes: seq<Effect>)
    requires forall k :: k in order ==> k in table
    ensures writes == WriteEffects(table, order)
  {
    writes := [];
    for k := 0 to |order|
      invariant writes == WriteEffects(table, order[..k])
    {
      var filePath := order[k];
      writes := writes + [Write(filePath, Join(table[filePath], PieceSeparator))];
    }
    assert order[..|order|] == order;
  }

  // ---------------------------------------------------------------------------
  // import
  // ---------------------------------------------------------------------------

  /** One entry `decompress` reports: its path inside the workspace and whether it is a directory. */
  datatype Entry = Entry(path: string, isDirectory: bool)

  /** The ways `import` stops before finishing. */
  datatype ImportError =
    | NoEntries            // `files[0]` of an empty archive
    | NoListing            // `readdir` of the first entry fails
    | NoHtmlPage           // no `.html` page in that folder: the page read fails
    | LoadFailed(error: LoadError)

  /** The attachment folder of a backup: a directory whose path ends in `/file/`. */
  predicate IsAttachmentDir(e: Entry) {
    e.isDirectory && EndsWith(e.path, "/file/")
  }

  /** The `.filter(fn => fn.endsWith('.html'))[0]` of the page listing: the first `.html` name. */
  function FirstHtmlPage(names: seq<string>): (r: Option<nat>)
    ensures r.Some? ==>
      r.value < |names| && EndsWith(names[r.value], ".html")
      && forall j :: 0 <= j < r.value ==> !EndsWith(names[j], ".html")
    ensures r.None? ==> forall j :: 0 <= j < |names| ==> !EndsWith(names[j], ".html")
  {
    if |names| == 0 then None
    else if EndsWith(names[0], ".html") then Some(0)
    else match FirstHtmlPage(names[1..])
      case None => None
      case Some(i) => Some(i + 1)
  }

  /** The integration hooks that run: each one whose option is not `skip`, Moments first. */
  function HookEffects(cfg: Config): (es: seq<Effect>)
    ensures |es| <= 2 && forall k :: 0 <= k < |es| ==> es[k].RunHook?
    ensures RunHook(Moments) in es <==> cfg.optionsMoments != "skip"
    ensures RunHook(Canvas) in es <==> cfg.optionsCanvas != "skip"
    ensures |es| == 2 ==> es[0] == RunHook(Moments)
  {
    (if cfg.optionsMoments != "skip" then [RunHook(Moments)] else [])
    + (if cfg.optionsCanvas != "skip" then [RunHook(Canvas)] else [])
  }

  /**
    `import`, given what the outside world answers: the entries `decompress`
    reports, the listing of the first entry's folder (`None` when it cannot be
    read) and the parsed page. The workspace is created and the archive
    unpacked; the first attachment folder is copied into the vault; the first
    `.html` page of the first entry is read and loaded; the memos are imported;
    the hooks not set to `skip` run; and the workspace is removed, which
    happens only when every earlier step succeeded.
  */
  method Import(cfg: Config, files: FilesPlaceholder, tmpDir: string, entries: seq<Entry>,
                listing: Option<seq<string>>, doc: Document, turndown: string -> string)
    returns (r: Result<FlomoCore, ImportError>, log: seq<Effect>)
    ensures (forall j :: 0 <= j < |entries| ==> !IsAttachmentDir(entries[j])) ==> Copies(log) == []
    ensures forall i :: FirstAttachmentDir(entries, i) ==>
      Copies(log) == [CopyDir(tmpDir + "/" + entries[i].path, cfg.baseDir + "/" + FilesBase(cfg))]
    ensures |entries| == 0 ==> r == Failure(NoEntries)
    ensures |entries| > 0 && listing.None? ==> r == Failure(NoListing)
    ensures |entries| > 0 && listing.Some? && FirstHtmlPage(listing.value).None? ==> r == Failure(NoHtmlPage)
    ensures |entries| == 0 || listing.None? || FirstHtmlPage(listing.value).None? ==>
      log == WorkspaceEffects(cfg, tmpDir, entries)
    ensures |entries| > 0 && listing.Some? && FirstHtmlPage(listing.value).Some? && r.Failure? ==>
      r.error.LoadFailed?
      && log == WorkspaceEffects(cfg, tmpDir, entries) + [ReadPage(PagePath(tmpDir, entries, listing.value))]
    ensures r.Success? ==>
      r.value.Valid()
      && log == WorkspaceEffects(cfg, tmpDir, entries) + [ReadPage(PagePath(tmpDir, entries, listing.value))]
        + FinishEffects(cfg, tmpDir, r.value.memos, r.value.files, r.value.fileOrder)
    ensures r.Success? <==>
      |entries| > 0 && listing.Some? && FirstHtmlPage(listing.value).Some?
      && AllMemosReadable(doc, turndown, files) && doc.tagOptions.Some?
    ensures r.Failure? ==> NoOutput(log)
    ensures r.Success? ==> fresh(r.value) && Imported(r.value, cfg, doc, turndown, files)
  {
    log := PrepareWorkspace(cfg, tmpDir, entries);
    WorkspaceHasNoOutput(cfg, tmpDir, entries);
    if |entries| == 0 {
      return Failure(NoEntries), log;
    }
    if listing.None? {
      return Failure(NoListing), log;
    }
    var page := FirstHtmlPage(listing.value);
    if page.None? {
      return Failure(NoHtmlPage), log;
    }
    var prep := log;
    var pagePath := PagePath(tmpDir, entries, listing.value);
    var rest;
    r, rest := LoadPage(cfg, files, tmpDir, pagePath, doc, turndown);
    CopiesAppend(prep, rest);
    log := prep + rest;
    if r.Success? {
      Reassociate(prep, [ReadPage(pagePath)], FinishEffects(cfg, tmpDir, r.value.memos, r.value.files, r.value.fileOrder));
    } else {
      NoOutputAppend(prep, rest);
    }
  }

  /**
    `core` holds what `import` leaves behind for a page: one memo per `.memo`
    node, read from that node, the option texts of `#tag` after the first, and
    the memos' resolved contents grouped under their paths in first-use order.
  */
  ghost predicate Imported(core: FlomoCore, cfg: Config, doc: Document, turndown: string -> string, files: FilesPlaceholder)
    reads core
  {
    core.Valid()
    && |core.memos| == |doc.memoNodes|
    && (forall i :: 0 <= i < |doc.memoNodes| ==> ReadMemo(doc.memoNodes[i], i, turndown, files) == Success(core.memos[i]))
    && doc.tagOptions.Some?
    && core.tags == (if |doc.tagOptions.value| == 0 then [] else doc.tagOptions.value[1..])
    && core.files == Grouped(map[], MemoPaths(cfg, core.memos), ResolvedContents(cfg, core.memos, files))
    && core.fileOrder == FirstSeen([], MemoPaths(cfg, core.memos))
  }

  /**
    The steps of `import` from the page read on: the page is read and loaded
    into a `FlomoCore`; when that succeeds, the memos are imported, the hooks
    run and the workspace is removed.
  */
  method LoadPage(cfg: Config, files: FilesPlaceholder, tmpDir: string, page: string,
                  doc: Document, turndown: string -> string)
    returns (r: Result<FlomoCore, ImportError>, log: seq<Effect>)
    ensures |log| >= 1 && log[0] == ReadPage(page) && Copies(log) == []
    ensures r.Success? <==> AllMemosReadable(doc, turndown, files) && doc.tagOptions.Some?
    ensures r.Failure? ==> r.error.LoadFailed? && log == [ReadPage(page)] && NoOutput(log)
    ensures r.Success? ==> fresh(r.value) && Imported(r.value, cfg, doc, turndown, files)
    ensures r.Success? ==>
      r.value.Valid() && log == [ReadPage(page)] + FinishEffects(cfg, tmpDir, r.value.memos, r.value.files, r.value.fileOrder)
  {
    log := [ReadPage(page)];
    CopiesNone(log);
    var flomo := LoadCore(doc, turndown, files);
    if flomo.Failure? {
      return Failure(LoadFailed(flomo.error)), log;
    }
    var tail := FinishImport(flomo.value, cfg, files, tmpDir);
    CopiesAppend(log, tail);
    log := log + tail;
    return Success(flomo.value), log;
  }

  /**
    The steps of `import` after the page is loaded: `importMemos`, the hooks
    whose option is not `skip`, and the removal of the workspace, last.
  */
  method FinishImport(flomo: FlomoCore, cfg: Config, files: FilesPlaceholder, tmpDir: string) returns (log: seq<Effect>)
    requires flomo.Valid()
    modifies flomo
    ensures flomo.memos == old(flomo.memos) && flomo.tags == old(flomo.tags) && flomo.Valid()
    ensures flomo.files == Grouped(old(flomo.files), MemoPaths(cfg, flomo.memos), ResolvedContents(cfg, flomo.memos, files))
    ensures flomo.fileOrder == FirstSeen(old(flomo.fileOrder), MemoPaths(cfg, flomo.memos))
    ensures Copies(log) == []
    ensures log == FinishEffects(cfg, tmpDir, flomo.memos, flomo.files, flomo.fileOrder)
  {
    var writes := ImportMemos(flomo, cfg, files);
    MemoEffectKinds(cfg, flomo.memos, flomo.files, flomo.fileOrder);
    var tail := RunHooks(cfg, tmpDir);
    CopiesAppend(writes, tail);
    Reassociate(writes, HookEffects(cfg), [RemoveDir(tmpDir)]);
    log := writes + tail;
  }

  /** The page `import` reads: the first `.html` name in the folder of the first entry. */
  function PagePath(tmpDir: string, entries: seq<Entry>, names: seq<string>): string
    requires |entries| > 0 && FirstHtmlPage(names).Some?
  {
    tmpDir + "/" + entries[0].path + "/" + names[FirstHtmlPage(names).value]
  }

  /**
    The effects from `importMemos` on: each memo's folder, one write per key,
    the hooks not set to `skip`, and the removal of the workspace.
  */
  function FinishEffects(cfg: Config, tmpDir: string, memos: seq<Memo>, table: map<string, seq<string>>, order: seq<string>): seq<Effect>
    requires forall k :: k in order ==> k in table
  {
    DirEffects(cfg, memos) + WriteEffects(table, order) + HookEffects(cfg) + [RemoveDir(tmpDir)]
  }

  /** The integration hooks whose option is not `skip`, Moments first, then the cleanup of the workspace. */
  method RunHooks(cfg: Config, tmpDir: string) returns (tail: seq<Effect>)
    ensures tail == HookEffects(cfg) + [RemoveDir(tmpDir)]
    ensures Copies(tail) == []
  {
    var hooks: seq<Effect> := [];
    if cfg.optionsMoments != "skip" {
      hooks := hooks + [RunHook(Moments)];
    }
    if cfg.optionsCanvas != "skip" {
      hooks := hooks + [RunHook(Canvas)];
    }
    tail := hooks + [RemoveDir(tmpDir)];
    CopiesNone(tail);
  }

  /** The first steps of `import`: create the workspace, unpack the archive, copy the attachments. */
  method PrepareWorkspace(cfg: Config, tmpDir: string, entries: seq<Entry>) returns (log: seq<Effect>)
    ensures log == WorkspaceEffects(cfg, tmpDir, entries)
    ensures |log| >= 2 && log[..2] == [EnsureDir(tmpDir), Unpack(cfg.rawDir, tmpDir)]
    ensures (forall j :: 0 <= j < |entries| ==> !IsAttachmentDir(entries[j])) ==> Copies(log) == []
    ensures forall i :: FirstAttachmentDir(entries, i) ==>
      Copies(log) == [CopyDir(tmpDir + "/" + entries[i].path, cfg.baseDir + "/" + FilesBase(cfg))]
    ensures NoOutput(log)
  {
    var prelude := [EnsureDir(tmpDir), Unpack(cfg.rawDir, tmpDir)];
    var copy := CopyAttachments(cfg, tmpDir, entries);
    log := prelude + copy;
    CopiesNone(prelude);
    CopiesAppend(prelude, copy);
    WorkspaceHasNoOutput(cfg, tmpDir, entries);
  }

  lemma Reassociate(a: seq<Effect>, b: seq<Effect>, c: seq<Effect>)
    ensures a + (b + c) == a + b + c
  {
  }

  /** The copies a log asks for, in order. */
  function Copies(es: seq<Effect>): seq<Effect>
    decreases |es|
  {
    if |es| == 0 then []
    else Copies(es[..|es| - 1]) + (if es[|es| - 1].CopyDir? then [es[|es| - 1]] else [])
  }

  lemma {:induction false} CopiesAppend(a: seq<Effect>, b: seq<Effect>)
    ensures Copies(a + b) == Copies(a) + Copies(b)
    decreases |b|
  {
    if |b| > 0 {
      assert (a + b)[..|a + b| - 1] == a + b[..|b| - 1];
      CopiesAppend(a, b[..|b| - 1]);
    } else {
      assert a + b == a;
    }
  }

  lemma {:induction false} CopiesNone(es: seq<Effect>)
    requires forall k :: 0 <= k < |es| ==> !es[k].CopyDir?
    ensures Copies(es) == []
    decreases |es|
  {
    if |es| > 0 {
      CopiesNone(es[..|es| - 1]);
    }
  }

  /** Entry `i` is the first attachment folder among the entries. */
  predicate FirstAttachmentDir(entries: seq<Entry>, i: int) {
    0 <= i < |entries| && IsAttachmentDir(entries[i])
    && forall j :: 0 <= j < i ==> !IsAttachmentDir(entries[j])
  }

  /**
    The attachment step of `import`: only the first directory ending in
    `/file/` is copied into the vault's attachment folder, after that folder
    is created; the search stops there.
  */
  method CopyAttachments(cfg: Config, tmpDir: string, entries: seq<Entry>) returns (log: seq<Effect>)
    ensures log == AttachmentEffects(cfg, tmpDir, entries)
    ensures (forall j :: 0 <= j < |entries| ==> !IsAttachmentDir(entries[j])) ==> log == []
    ensures forall i :: FirstAttachmentDir(entries, i) ==>
      log == [EnsureDir(cfg.baseDir + "/" + FilesBase(cfg)),
              CopyDir(tmpDir + "/" + entries[i].path, cfg.baseDir + "/" + FilesBase(cfg))]
    ensures log == [] || exists i :: FirstAttachmentDir(entries, i)
  {
    var attachmentDir := FilesBase(cfg);
    log := [];
    var i := 0;
    while i < |entries|
      invariant 0 <= i <= |entries|
      invariant forall j :: 0 <= j < i ==> !IsAttachmentDir(entries[j])
      invariant log == []
      invariant AttachmentEffects(cfg, tmpDir, entries) == AttachmentEffects(cfg, tmpDir, entries[i..])
    {
      assert entries[i..][1..] == entries[i + 1..];
      if IsAttachmentDir(entries[i]) {
        var targetDir := cfg.baseDir + "/" + attachmentDir;
        log := [EnsureDir(targetDir), CopyDir(tmpDir + "/" + entries[i].path, targetDir)];
        assert FirstAttachmentDir(entries, i);
        break;
      }
      i := i + 1;
    }
  }

  /**
    The effects of the attachment step, read from the front of the entry list:
    the first attachment folder is copied after the vault folder is created,
    and nothing happens without one.
  */
  function AttachmentEffects(cfg: Config, tmpDir: string, entries: seq<Entry>): seq<Effect>
    decreases |entries|
  {
    if |entries| == 0 then []
    else if IsAttachmentDir(entries[0]) then
      [EnsureDir(cfg.baseDir + "/" + FilesBase(cfg)), CopyDir(tmpDir + "/" + entries[0].path, cfg.baseDir + "/" + FilesBase(cfg))]
    else AttachmentEffects(cfg, tmpDir, entries[1..])
  }

  /** The effects of the steps before the page read: workspace, unpacking, attachments. */
  function WorkspaceEffects(cfg: Config, tmpDir: string, entries: seq<Entry>): seq<Effect> {
    [EnsureDir(tmpDir), Unpack(cfg.rawDir, tmpDir)] + AttachmentEffects(cfg, tmpDir, entries)
  }

  /** The attachment step only creates folders and copies. */
  lemma {:induction false} AttachmentEffectsKinds(cfg: Config, tmpDir: string, entries: seq<Entry>)
    ensures forall e :: e in AttachmentEffects(cfg, tmpDir, entries) ==> e.EnsureDir? || e.CopyDir?
    decreases |entries|
  {
    var es := AttachmentEffects(cfg, tmpDir, entries);
    if |entries| > 0 && !IsAttachmentDir(entries[0]) {
      AttachmentEffectsKinds(cfg, tmpDir, entries[1..]);
      assert es == AttachmentEffects(cfg, tmpDir, entries[1..]);
    } else if |entries| > 0 {
      assert |es| == 2 && es[0].EnsureDir? && es[1].CopyDir?;
    }
  }

  /** No file is written, no hook runs and the workspace is not removed. */
  predicate NoOutput(es: seq<Effect>) {
    forall k :: 0 <= k < |es| ==> !es[k].Write? && !es[k].RunHook? && !es[k].RemoveDir?
  }

  lemma NoOutputAppend(a: seq<Effect>, b: seq<Effect>)
    requires NoOutput(a) && NoOutput(b)
    ensures NoOutput(a + b)
  {
    forall k | 0 <= k < |a + b|
      ensures !(a + b)[k].Write? && !(a + b)[k].RunHook? && !(a + b)[k].RemoveDir?
    {
      if k >= |a| {
        assert (a + b)[k] == b[k - |a|];
      }
    }
  }

  /** Nothing before the page read writes a file, runs a hook or removes the workspace. */
  lemma WorkspaceHasNoOutput(cfg: Config, tmpDir: string, entries: seq<Entry>)
    ensures NoOutput(WorkspaceEffects(cfg, tmpDir, entries))
  {
    var es := WorkspaceEffects(cfg, tmpDir, entries);
    var copies := AttachmentEffects(cfg, tmpDir, entries);
    AttachmentEffectsKinds(cfg, tmpDir, entries);
    assert es == [EnsureDir(tmpDir), Unpack(cfg.rawDir, tmpDir)] + copies;
    forall k | 0 <= k < |es|
      ensures !es[k].Write? && !es[k].RunHook? && !es[k].RemoveDir?
    {
      if k >= 2 {
        assert es[k] == copies[k - 2] && copies[k - 2] in copies;
      } else {
        assert es[k] == [EnsureDir(tmpDir), Unpack(cfg.rawDir, tmpDir)][k];
      }
    }
  }

  /** `importMemos` only creates folders and writes files. */
  lemma MemoEffectKinds(cfg: Config, memos: seq<Memo>, table: map<string, seq<string>>, order: seq<string>)
    requires forall k :: k in order ==> k in table
    ensures var es := DirEffects(cfg, memos) + WriteEffects(table, order);
      (forall k :: 0 <= k < |es| ==> es[k].EnsureDir? || es[k].Write?) && Copies(es) == []
  {
    var es := DirEffects(cfg, memos) + WriteEffects(table, order);
    forall k | 0 <= k < |es|
      ensures es[k].EnsureDir? || es[k].Write?
    {
      if k < |memos| {
        assert es[k] == DirEffects(cfg, memos)[k];
      } else {
        assert es[k] == WriteEffects(table, order)[k - |memos|];
      }
    }
    CopiesNone(es);
  }
}
