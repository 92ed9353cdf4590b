/**
  The breadcrumb segment of powerline/custom_segments/common.py: the working
  directory is decoded and home-shortened (`get_shortened_path`), then cut
  into one display segment per ancestor directory (`FullPathSegment.__call__`).
  The separator is `/` throughout.
 */
module Breadcrumb {
  import opened Wrappers
  import opened Unicode

  const Separator: char := '/'
  const RootMarker: string := "/"
  const HomeMarker: string := "~"
  const NotFound: string := "[not found]"
  const DividerGroup: string := "cwd:divider"
  const DefaultEllipsis: string := " \U{2026} "
  /** The errno of "No such file or directory". */
  const ENOENT: int := 2

  /** What `segment_info['getcwd']()` did: returned a value, or raised OSError. */
  datatype GetcwdOutcome = Returned(value: PyValue) | RaisedOsError(errno: int)

  /** The path (or the exception) and whether `pl.warn` was called. */
  datatype ShortenedPath = ShortenedPath(result: Result<string, PyError>, warned: bool)

  /** The segment's keyword arguments; `shortenHome` is passed on to `get_shortened_path`. */
  datatype Options = Options(
    shortenHome: bool,
    dirShortenLen: Option<nat>,
    dirLimitDepth: Option<nat>,
    usePathSeparator: bool,
    ellipsis: Option<string>)

  const DefaultOptions: Options := Options(true, None, None, false, Some(DefaultEllipsis))

  /** One record of the returned list. */
  datatype Segment = Segment(contents: string, dividerHighlightGroup: string, drawInnerDivider: bool)

  /** Python truth value of an optional count: absent and 0 are both false. */
  predicate IsSet(n: Option<nat>) {
    n.Some? && n.value > 0
  }

  /** `'~' + path[len(home):]` once `home` is known to be a prefix. */
  function ReplaceHome(path: string, home: string): string
    requires home <= path
  {
    HomeMarker + path[|home|..]
  }

  /**
    `get_shortened_path`: decode the working directory; on OSError with errno
    2 warn and return `"[not found]"`, on any other OSError re-raise; then, if
    asked and `home` is truthy, replace a leading `u(home)` with `~`.
   */
  function GetShortenedPath(getcwd: GetcwdOutcome, home: PyValue, shortenHome: bool): (r: ShortenedPath)
    ensures r.warned <==> getcwd == RaisedOsError(ENOENT)
    ensures r.warned ==> r.result == Success(NotFound)
    ensures getcwd.RaisedOsError? && getcwd.errno != ENOENT ==> r.result == Failure(OSError(getcwd.errno))
    ensures getcwd.Returned? && U(getcwd.value).Failure? ==> r.result == U(getcwd.value)
    ensures getcwd.Returned? && U(getcwd.value).Success? ==>
              var path := U(getcwd.value).value;
              if !shortenHome || !Truthy(home) then r.result == Success(path)
              else if U(home).Failure? then r.result == Failure(U(home).error)
              else
                var h := U(home).value;
                h != [] &&
                r.result == if h <= path then Success(ReplaceHome(path, h)) else Success(path)
  {
    match getcwd
    case RaisedOsError(errno) =>
      if errno == ENOENT then ShortenedPath(Success(NotFound), true)
      else ShortenedPath(Failure(OSError(errno)), false)
    case Returned(v) =>
      match U(v)
      case Failure(e) => ShortenedPath(Failure(e), false)
      case Success(path) =>
        if shortenHome && Truthy(home) then
          match U(home)
          case Failure(e) => ShortenedPath(Failure(e), false)
          case Success(h) =>
            if h <= path then ShortenedPath(Success(ReplaceHome(path, h)), false)
            else ShortenedPath(Success(path), false)
        else ShortenedPath(Success(path), false)
  }

  /** Undoes home shortening: a leading `~` stands for `home`. */
  function ExpandHome(path: string, home: string): string {
    if path != [] && path[0] == HomeMarker[0] then home + path[1..] else path
  }

  /**
    Home shortening loses nothing: expanding `~` again gives back the decoded
    working directory, for any path that does not itself begin with `~`
    (absolute paths never do).
   */
  lemma ExpandHomeUndoesShortening(cwd: PyValue, home: PyValue, shortenHome: bool, h: string)
    requires U(cwd).Success?
    requires var p := U(cwd).value; p == [] || p[0] != HomeMarker[0]
    requires shortenHome && Truthy(home) ==> U(home) == Success(h)
    ensures GetShortenedPath(Returned(cwd), home, shortenHome).result.Success?
    ensures ExpandHome(GetShortenedPath(Returned(cwd), home, shortenHome).result.value, h) == U(cwd).value
  {
    var p := U(cwd).value;
    if shortenHome && Truthy(home) && h <= p {
      assert h + p[|h|..] == p;
    }
  }

  /** `s.split('/')`: the pieces between separators, at least one. */
  function Split(s: string): (parts: seq<string>)
    ensures |parts| >= 1
    ensures forall k :: 0 <= k < |parts| ==> Separator !in parts[k]
    ensures Separator in s <==> |parts| >= 2
  {
    if s == [] then [[]]
    else
      var rest := Split(s[1..]);
      assert s == [s[0]] + s[1..];
      if s[0] == Separator then [[]] + rest
      else [[s[0]] + rest[0]] + rest[1..]
  }

  /** `'/'.join(parts)`. */
  function Join(parts: seq<string>): string
    requires |parts| >= 1
  {
    if |parts| == 1 then parts[0] else parts[0] + [Separator] + Join(parts[1..])
  }

  lemma {:induction false} JoinSplit(s: string)
    ensures Join(Split(s)) == s
  {
    if s != [] {
      var rest := Split(s[1..]);
      JoinSplit(s[1..]);
      if s[0] != Separator {
        var parts := Split(s);
        if |rest| > 1 {
          assert parts[1..] == rest[1..];
          assert Join(parts) == [s[0]] + (rest[0] + [Separator] + Join(rest[1..]));
        }
      }
    }
  }

  /** Splitting a piece-free prefix only lengthens the first piece. */
  lemma {:induction false} SplitPrefix(w: string, t: string)
    requires Separator !in w
    ensures Split(w + t) == [w + Split(t)[0]] + Split(t)[1..]
  {
    if w != [] {
      SplitPrefix(w[1..], t);
      assert (w + t)[1..] == w[1..] + t;
      assert [w[0]] + (w[1..] + Split(t)[0]) == w + Split(t)[0];
    } else {
      assert w + t == t;
      assert Split(t) == [Split(t)[0]] + Split(t)[1..];
      assert w + Split(t)[0] == Split(t)[0];
    }
  }

  /** Splitting inverts joining pieces that hold no separator. */
  lemma {:induction false} SplitJoin(parts: seq<string>)
    requires |parts| >= 1
    requires forall k :: 0 <= k < |parts| ==> Separator !in parts[k]
    ensures Split(Join(parts)) == parts
  {
    if |parts| == 1 {
      SplitPrefix(parts[0], []);
      assert parts[0] + [] == parts[0];
    } else {
      var tail := Join(parts[1..]);
      SplitJoin(parts[1..]);
      SplitPrefix(parts[0], [Separator] + tail);
      assert Join(parts) == parts[0] + ([Separator] + tail);
      var sepTail := [Separator] + tail;
      assert sepTail[0] == Separator && sepTail[1..] == tail;
      assert Split(sepTail) == [[]] + Split(tail);
      assert parts[0] + Split(sepTail)[0] == parts[0];
      assert parts == [parts[0]] + parts[1..];
    }
  }

  /** The ancestor entries: the split path without its last component, the current directory. */
  function Ancestors(path: string): (a: seq<string>)
    requires Separator in path
    ensures |a| == |Split(path)| - 1 >= 1
  {
    var parts := Split(path);
    parts[..|parts| - 1]
  }

  /** The last component of the path: the current directory. */
  function CurrentDir(path: string): string {
    var parts := Split(path);
    parts[|parts| - 1]
  }

  lemma {:induction false} JoinAppend(xs: seq<string>, y: string)
    requires |xs| >= 1
    ensures Join(xs + [y]) == Join(xs) + [Separator] + y
    decreases |xs|
  {
    if |xs| > 1 {
      JoinAppend(xs[1..], y);
      assert (xs + [y])[1..] == xs[1..] + [y];
    }
  }

  /**
    The ancestors are exactly the parent of the current directory: joined
    back they give the path up to its last separator, and what follows that
    separator (the current directory) never appears among them.
   */
  lemma AncestorsArePathParent(path: string)
    requires Separator in path
    ensures Join(Ancestors(path)) + [Separator] + CurrentDir(path) == path
    ensures Separator !in CurrentDir(path)
  {
    var parts := Split(path);
    JoinSplit(path);
    JoinAppend(Ancestors(path), CurrentDir(path));
    assert parts == Ancestors(path) + [CurrentDir(path)];
  }

  function Min(a: nat, b: nat): nat {
    if a < b then a else b
  }

  /** Line 56 for one entry: `i[0:dir_shorten_len] if dir_shorten_len and i else i`. */
  function ShortenEntry(entry: string, n: Option<nat>): string {
    if IsSet(n) && entry != [] then entry[..Min(n.value, |entry|)] else entry
  }

  /**
    Every entry but the last is shortened: each becomes a prefix of itself,
    at most `n` long and empty exactly when it was; the last entry and the
    length of the list are kept, and nothing changes when `n` is unset.
   */
  function ShortenAncestors(entries: seq<string>, n: Option<nat>): (r: seq<string>)
    requires |entries| >= 1
    ensures |r| == |entries| && r[|r| - 1] == entries[|entries| - 1]
    ensures !IsSet(n) ==> r == entries
    ensures forall k :: 0 <= k < |r| - 1 ==>
              r[k] <= entries[k] && (r[k] == [] <==> entries[k] == []) &&
              (IsSet(n) && entries[k] != [] ==> |r[k]| == Min(n.value, |entries[k]|))
  {
    seq(|entries| - 1, k requires 0 <= k < |entries| - 1 => ShortenEntry(entries[k], n))
      + [entries[|entries| - 1]]
  }

  /** Shortening twice is shortening once. */
  lemma ShortenIdempotent(entries: seq<string>, n: Option<nat>)
    requires |entries| >= 1
    ensures ShortenAncestors(ShortenAncestors(entries, n), n) == ShortenAncestors(entries, n)
  {
    var once := ShortenAncestors(entries, n);
    var twice := ShortenAncestors(once, n);
    forall k | 0 <= k < |entries| - 1 ensures twice[k] == once[k] {
      assert twice[k] == ShortenEntry(once[k], n);
    }
  }

  /** The entries that stand in front of the last `depth`: an ellipsis, or nothing when it is None. */
  function EllipsisEntries(ellipsis: Option<string>): seq<string> {
    if ellipsis.Some? then [ellipsis.value] else []
  }

  /**
    Lines 57-60: with `depth` set and more than `depth + 1` entries, only
    the last `depth` remain, behind the ellipsis when there is one; otherwise
    the list is kept.
   */
  function LimitDepth(entries: seq<string>, depth: Option<nat>, ellipsis: Option<string>): (r: seq<string>)
    requires |entries| >= 1
    ensures |r| >= 1 && r[|r| - 1] == entries[|entries| - 1]
    ensures IsSet(depth) ==> |r| <= depth.value + 1
    ensures !IsSet(depth) || |entries| <= depth.value + 1 ==> r == entries
    ensures IsSet(depth) && |entries| > depth.value + 1 ==>
              |r| == depth.value + |EllipsisEntries(ellipsis)| &&
              r[|r| - depth.value..] == entries[|entries| - depth.value..] &&
              (ellipsis.Some? ==> r[0] == ellipsis.value)
  {
    if IsSet(depth) && |entries| > depth.value + 1 then
      EllipsisEntries(ellipsis) + entries[|entries| - depth.value..]
    else entries
  }

  /** Lines 62-63: an empty first entry (an absolute path's root) is shown as `/`. */
  function MarkRoot(entries: seq<string>): (r: seq<string>)
    requires |entries| >= 1
    ensures |r| == |entries| && r[0] != [] && r[1..] == entries[1..]
    ensures entries[0] == [] ==> r == entries[0 := RootMarker]
    ensures entries[0] != [] ==> r == entries
  {
    if entries[0] == [] then entries[0 := RootMarker] else entries
  }

  /** The list of entries the loop at line 65 walks. */
  function Entries(path: string, opts: Options): (r: seq<string>)
    requires Separator in path
    ensures |r| >= 1 && r[0] != []
  {
    var ancestors := Ancestors(path);
    MarkRoot(LimitDepth(ShortenAncestors(ancestors, opts.dirShortenLen), opts.dirLimitDepth, opts.ellipsis))
  }

  /** What the loop makes of one entry's text. */
  function Decorate(entry: string, usePathSeparator: bool): string {
    if usePathSeparator then entry + [Separator] else entry
  }

  /** Lines 65-74: one record per non-empty entry, in order. */
  function Emit(entries: seq<string>, usePathSeparator: bool): (segs: seq<Segment>)
    ensures |segs| <= |entries|
    ensures forall k :: 0 <= k < |segs| ==>
              segs[k].contents != [] &&
              segs[k].dividerHighlightGroup == DividerGroup &&
              segs[k].drawInnerDivider == !usePathSeparator
    ensures usePathSeparator ==> forall k :: 0 <= k < |segs| ==> |segs[k].contents| >= 2
  {
    if entries == [] then []
    else
      var segs := Emit(entries[..|entries| - 1], usePathSeparator);
      var entry := entries[|entries| - 1];
      if entry == [] then segs
      else segs + [Segment(Decorate(entry, usePathSeparator), DividerGroup, !usePathSeparator)]
  }

  /** `s[:-1]`. */
  function DropLast(s: string): string
    requires |s| >= 1
  {
    s[..|s| - 1]
  }

  /**
    Lines 75-78: in separator mode the last segment loses its trailing
    separator, and with two or more segments the first loses a leading one.
   */
  function FixSeparators(segs: seq<Segment>, usePathSeparator: bool): (r: seq<Segment>)
    requires usePathSeparator ==> |segs| >= 1 && forall k :: 0 <= k < |segs| ==> |segs[k].contents| >= 2
    ensures |r| == |segs|
    ensures forall k :: 0 <= k < |r| ==>
              r[k].dividerHighlightGroup == segs[k].dividerHighlightGroup &&
              r[k].drawInnerDivider == segs[k].drawInnerDivider
    ensures usePathSeparator ==> forall k :: 0 <= k < |r| ==> r[k].contents != []
    ensures usePathSeparator ==> r[|r| - 1].contents == DropLast(segs[|segs| - 1].contents)
    ensures usePathSeparator && |segs| > 1 ==>
              r[0].contents == if segs[0].contents[0] == Separator then segs[0].contents[1..] else segs[0].contents
    ensures usePathSeparator ==> forall k :: 0 < k < |r| - 1 ==> r[k] == segs[k]
    ensures !usePathSeparator ==> r == segs
  {
    if !usePathSeparator then segs
    else
      var last := |segs| - 1;
      var r := segs[last := segs[last].(contents := DropLast(segs[last].contents))];
      if |r| > 1 && r[0].contents[0] == Separator then
        r[0 := r[0].(contents := r[0].contents[1..])]
      else r
  }

  /**
    The records built from a list of entries whose first entry is non-empty:
    at least one, none with empty contents, every one with divider group
    `cwd:divider` and an inner divider exactly when the separator is not used.
   */
  function Segments(entries: seq<string>, usePathSeparator: bool): (segs: seq<Segment>)
    requires |entries| >= 1 && entries[0] != []
    ensures |segs| >= 1
    ensures forall k :: 0 <= k < |segs| ==>
              segs[k].contents != [] &&
              segs[k].dividerHighlightGroup == DividerGroup &&
              segs[k].drawInnerDivider == !usePathSeparator
  {
    EmitNonEmpty(entries, usePathSeparator);
    FixSeparators(Emit(entries, usePathSeparator), usePathSeparator)
  }

  /** The segment list `__call__` returns for the shortened path `path`. */
  function FullPathRecords(path: string, opts: Options): (segs: seq<Segment>)
    requires Separator in path
    ensures |segs| >= 1
    ensures forall k :: 0 <= k < |segs| ==>
              segs[k].contents != [] &&
              segs[k].dividerHighlightGroup == DividerGroup &&
              segs[k].drawInnerDivider == !opts.usePathSeparator
  {
    Segments(Entries(path, opts), opts.usePathSeparator)
  }

  /** A list whose first entry is non-empty yields at least one segment. */
  lemma {:induction false} EmitNonEmpty(entries: seq<string>, usePathSeparator: bool)
    requires |entries| >= 1 && entries[0] != []
    ensures |Emit(entries, usePathSeparator)| >= 1
    decreases |entries|
  {
    if |entries| > 1 {
      var init := entries[..|entries| - 1];
      EmitNonEmpty(init, usePathSeparator);
      assert init[0] == entries[0];
    }
  }

  /**
    The non-empty entries, in order (the entries line 66 does not skip):
    none is empty, and a non-empty first entry stays first.
   */
  function NonEmpty(entries: seq<string>): (r: seq<string>)
    ensures |r| <= |entries|
    ensures forall k :: 0 <= k < |r| ==> r[k] != []
    ensures entries != [] && entries[0] != [] ==> |r| >= 1 && r[0] == entries[0]
  {
    if entries == [] then []
    else if entries[0] == [] then NonEmpty(entries[1..])
    else [entries[0]] + NonEmpty(entries[1..])
  }

  /** The texts of the segments, in order. */
  function Contents(segs: seq<Segment>): (texts: seq<string>)
    ensures |texts| == |segs| && forall k :: 0 <= k < |segs| ==> texts[k] == segs[k].contents
  {
    if segs == [] then [] else [segs[0].contents] + Contents(segs[1..])
  }

  lemma {:induction false} NonEmptyAppend(entries: seq<string>, e: string)
    ensures NonEmpty(entries + [e]) == NonEmpty(entries) + (if e == [] then [] else [e])
    decreases |entries|
  {
    if entries == [] {
      assert [] + [e] == [e];
    } else {
      NonEmptyAppend(entries[1..], e);
      assert (entries + [e])[1..] == entries[1..] + [e];
    }
  }

  /** Each segment shows one non-empty entry, decorated, and they come in entry order. */
  lemma {:induction false} EmitShowsNonEmptyEntries(entries: seq<string>, usePathSeparator: bool)
    ensures var ne := NonEmpty(entries);
            |Emit(entries, usePathSeparator)| == |ne| &&
            forall k :: 0 <= k < |ne| ==> Emit(entries, usePathSeparator)[k].contents == Decorate(ne[k], usePathSeparator)
    decreases |entries|
  {
    if entries != [] {
      var init := entries[..|entries| - 1];
      var e := entries[|entries| - 1];
      EmitShowsNonEmptyEntries(init, usePathSeparator);
      NonEmptyAppend(init, e);
      assert init + [e] == entries;
    }
  }

  /** Without separator mode each segment's contents is its entry exactly. */
  lemma PlainModeShowsEntries(path: string, opts: Options)
    requires Separator in path && !opts.usePathSeparator
    ensures Contents(FullPathRecords(path, opts)) == NonEmpty(Entries(path, opts))
  {
    EmitShowsNonEmptyEntries(Entries(path, opts), false);
  }

  /** `''.join(texts)`. */
  function Concat(texts: seq<string>): string {
    if texts == [] then [] else texts[0] + Concat(texts[1..])
  }

  /** Entries followed by separators, the last one without, spell the joined entries. */
  lemma {:induction false} ConcatDecorated(entries: seq<string>)
    requires |entries| >= 1
    ensures Concat(SeparatedTexts(entries)) == Join(entries)
    decreases |entries|
  {
    var texts := SeparatedTexts(entries);
    if |entries| > 1 {
      var rest := entries[1..];
      ConcatDecorated(rest);
      var restTexts := SeparatedTexts(rest);
      assert texts[1..] == restTexts;
      assert Concat(texts) == entries[0] + [Separator] + Concat(restTexts);
    } else {
      assert texts == [entries[0]];
      assert Concat(texts) == entries[0] + [];
    }
  }

  lemma {:induction false} NonEmptyAll(entries: seq<string>)
    requires forall k :: 0 <= k < |entries| ==> entries[k] != []
    ensures NonEmpty(entries) == entries
  {
    if entries != [] {
      NonEmptyAll(entries[1..]);
    }
  }

  /** Entries followed by separators, except the last. */
  function SeparatedTexts(entries: seq<string>): (texts: seq<string>)
    requires |entries| >= 1
    ensures |texts| == |entries|
  {
    seq(|entries| - 1, k requires 0 <= k < |entries| - 1 => entries[k] + [Separator]) + [entries[|entries| - 1]]
  }

  /** With every entry non-empty, separator mode emits each entry followed by a separator. */
  lemma SeparatorModeEmitsAll(entries: seq<string>)
    requires forall k :: 0 <= k < |entries| ==> entries[k] != []
    ensures |Emit(entries, true)| == |entries|
    ensures forall k :: 0 <= k < |entries| ==> Emit(entries, true)[k].contents == entries[k] + [Separator]
  {
    EmitShowsNonEmptyEntries(entries, true);
    NonEmptyAll(entries);
  }

  /** The first entry as line 78 leaves it: without its leading separator when that is stripped. */
  function StripFirst(entries: seq<string>): (r: seq<string>)
    requires |entries| >= 1 && forall k :: 0 <= k < |entries| ==> entries[k] != []
    ensures |r| == |entries|
  {
    if |entries| > 1 && entries[0][0] == Separator then entries[0 := entries[0][1..]] else entries
  }

  /** The texts of the separator-mode segments, entry by entry, when no entry is empty. */
  lemma GaplessSeparatorModeTexts(entries: seq<string>)
    requires |entries| >= 1
    requires forall k :: 0 <= k < |entries| ==> entries[k] != []
    ensures Contents(Segments(entries, true)) == SeparatedTexts(StripFirst(entries))
  {
    var m := |entries|;
    SeparatorModeEmitsAll(entries);
    var emitted := Emit(entries, true);
    var fixed := FixSeparators(emitted, true);
    var texts := SeparatedTexts(StripFirst(entries));
    assert fixed[m - 1].contents == DropLast(entries[m - 1] + [Separator]);
    assert fixed[m - 1].contents == texts[m - 1];
    if m > 1 {
      assert fixed[0].contents == texts[0];
    }
    forall k | 0 < k < m - 1 ensures fixed[k].contents == texts[k] {
      assert emitted[k].contents == entries[k] + [Separator];
    }
  }

  /** Skipping empty entries first changes nothing: the loop skips them itself (lines 66-67). */
  lemma EmitSkipsEmpty(entries: seq<string>, usePathSeparator: bool)
    ensures Emit(entries, usePathSeparator) == Emit(NonEmpty(entries), usePathSeparator)
  {
    var ne := NonEmpty(entries);
    EmitShowsNonEmptyEntries(entries, usePathSeparator);
    EmitShowsNonEmptyEntries(ne, usePathSeparator);
    NonEmptyAll(ne);
  }

  /**
    The texts of the separator-mode segments: each non-empty entry followed
    by a separator except the last, and the first without its leading
    separator when more segments follow.
   */
  lemma SeparatorModeTexts(entries: seq<string>)
    requires |entries| >= 1 && entries[0] != []
    ensures Contents(Segments(entries, true)) == SeparatedTexts(StripFirst(NonEmpty(entries)))
  {
    var ne := NonEmpty(entries);
    EmitSkipsEmpty(entries, true);
    assert Segments(entries, true) == Segments(ne, true);
    GaplessSeparatorModeTexts(ne);
  }

  /**
    In separator mode the segments read together spell the non-empty entries
    joined by separators, with the first separator dropped when the first
    entry starts with one and more segments follow.
   */
  lemma SeparatorModeSpellsEntries(entries: seq<string>)
    requires |entries| >= 1 && entries[0] != []
    ensures var ne := NonEmpty(entries);
            Concat(Contents(Segments(entries, true))) ==
            if |ne| > 1 && ne[0][0] == Separator then Join(ne)[1..] else Join(ne)
  {
    var ne := NonEmpty(entries);
    SeparatorModeTexts(entries);
    ConcatDecorated(StripFirst(ne));
    if |ne| > 1 && ne[0][0] == Separator {
      JoinDropFirst(ne);
    }
  }

  /** Dropping the first character of the first entry drops the first character of the join. */
  lemma JoinDropFirst(entries: seq<string>)
    requires |entries| > 1 && entries[0] != []
    ensures Join(entries[0 := entries[0][1..]]) == Join(entries)[1..]
  {
    var shown := entries[0 := entries[0][1..]];
    var tail := [Separator] + Join(entries[1..]);
    assert shown[1..] == entries[1..];
    assert (entries[0] + tail)[1..] == entries[0][1..] + tail;
  }

  /**
    In separator mode, with no shortening and no depth limit, the segments
    read together spell the parent of the current directory (`/` for a
    directory right below the root), provided the parent path holds no empty
    component other than the root's.
   */
  lemma SeparatorModeShowsParent(path: string, opts: Options)
    requires Separator in path
    requires opts.usePathSeparator && !IsSet(opts.dirShortenLen) && !IsSet(opts.dirLimitDepth)
    requires forall k :: 0 < k < |Ancestors(path)| ==> Ancestors(path)[k] != []
    ensures Concat(Contents(FullPathRecords(path, opts))) ==
            if Join(Ancestors(path)) == [] then RootMarker else Join(Ancestors(path))
  {
    var ancestors := Ancestors(path);
    var entries := Entries(path, opts);
    assert entries == MarkRoot(ancestors);
    SeparatorModeSpellsEntries(entries);
    NonEmptyAll(entries);
    if ancestors[0] == [] {
      if |ancestors| > 1 {
        JoinDropFirst(entries);
        assert entries[0 := entries[0][1..]] == ancestors;
      }
    } else {
      assert Separator !in ancestors[0];
    }
  }

  /**
    Lines 50-63 of `__call__`: split the path, cut the current directory,
    shorten, drop all but the last entries behind an ellipsis, and mark the
    root, editing the list in place.
   */
  method BuildEntries(path: string, opts: Options) returns (cwd: seq<string>)
    requires Separator in path
    ensures cwd == Entries(path, opts)
  {
    var cwdSplit := Split(path);
    // cut out the current directory
    cwdSplit := cwdSplit[..|cwdSplit| - 1];
    var cwdSplitLen := |cwdSplit|;
    cwd := seq(cwdSplitLen - 1, k requires 0 <= k < cwdSplitLen - 1 => ShortenEntry(cwdSplit[k], opts.dirShortenLen))
           + [cwdSplit[cwdSplitLen - 1]];
    ghost var shortened := cwd;
    assert shortened == ShortenAncestors(Ancestors(path), opts.dirShortenLen);
    if IsSet(opts.dirLimitDepth) && cwdSplitLen > opts.dirLimitDepth.value + 1 {
      cwd := cwd[|cwd| - opts.dirLimitDepth.value..];
      if opts.ellipsis.Some? {
        cwd := [opts.ellipsis.value] + cwd;
      }
    }
    assert cwd == LimitDepth(shortened, opts.dirLimitDepth, opts.ellipsis);
    if cwd[0] == [] {
      cwd := cwd[0 := RootMarker];
    }
  }

  /**
    Lines 64-79 of `__call__`: one record per non-empty entry, appended in
    order, then the separator fix-ups on the last and first records.
   */
  method EmitSegments(cwd: seq<string>, usePathSeparator: bool) returns (ret: seq<Segment>)
    requires |cwd| >= 1 && cwd[0] != []
    ensures ret == Segments(cwd, usePathSeparator)
  {
    ret := [];
    var drawInnerDivider := !usePathSeparator;
    for k := 0 to |cwd|
      invariant ret == Emit(cwd[..k], usePathSeparator)
    {
      assert cwd[..k + 1][..k] == cwd[..k];
      var part := cwd[k];
      if part == [] {
        continue;
      }
      if usePathSeparator {
        part := part + [Separator];
      }
      ret := ret + [Segment(part, DividerGroup, drawInnerDivider)];
    }
    assert cwd[..|cwd|] == cwd;
    EmitNonEmpty(cwd, usePathSeparator);
    if usePathSeparator {
      ret := ret[|ret| - 1 := ret[|ret| - 1].(contents := DropLast(ret[|ret| - 1].contents))];
      if |ret| > 1 && ret[0].contents[0] == Separator {
        ret := ret[0 := ret[0].(contents := ret[0].contents[1..])];
      }
    }
  }

  /** `__call__` once the shortened path is known (lines 50-79). */
  method FullPathSegments(path: string, opts: Options) returns (ret: seq<Segment>)
    requires Separator in path
    ensures ret == FullPathRecords(path, opts)
  {
    var cwd := BuildEntries(path, opts);
    ret := EmitSegments(cwd, opts.usePathSeparator);
  }

  /**
    What `full_path` does as written (lines 48-79 with
    `get_shortened_path`): errors from `get_shortened_path` propagate, and a
    shortened path without a separator leaves `cwd_split` empty after the
    current directory is cut, so `cwd_split[-1]` on line 56 raises IndexError.
   */
  function CallOutcome(getcwd: GetcwdOutcome, home: PyValue, opts: Options): (r: Result<seq<Segment>, PyError>)
    ensures var sp := GetShortenedPath(getcwd, home, opts.shortenHome).result;
            (r == Failure(IndexError) <==> sp.Success? && Separator !in sp.value) &&
            (sp.Failure? ==> r == Failure(sp.error)) &&
            (r.Success? <==> sp.Success? && Separator in sp.value) &&
            (r.Success? ==> r.value == FullPathRecords(sp.value, opts))
  {
    var sp := GetShortenedPath(getcwd, home, opts.shortenHome).result;
    if sp.Failure? then Failure(sp.error)
    else if Separator in sp.value then Success(FullPathRecords(sp.value, opts))
    else Failure(IndexError)
  }

  /** `FullPathSegment.__call__` as written, with the working directory, the home directory and the warning as values. */
  method FullPath(getcwd: GetcwdOutcome, home: PyValue, opts: Options)
    returns (r: Result<seq<Segment>, PyError>, warned: bool)
    ensures warned <==> getcwd == RaisedOsError(ENOENT)
    ensures r == CallOutcome(getcwd, home, opts)
  {
    var shortened := GetShortenedPath(getcwd, home, opts.shortenHome);
    warned := shortened.warned;
    if shortened.result.Failure? {
      r := Failure(shortened.result.error);
      return;
    }
    var path := shortened.result.value;
    if |Split(path)| - 1 == 0 {
      // `cwd_split[:-1]` is empty, so `cwd_split[-1]` raises
      r := Failure(IndexError);
      return;
    }
    var segs := FullPathSegments(path, opts);
    r := Success(segs);
  }

  /**
    The crash shows for both paths `get_shortened_path` produces without a
    separator: `"[not found]"` after errno 2, and `"~"` when the working
    directory is the home directory itself.
   */
  lemma {:induction false} CallCrashesWithoutParent(home: PyValue, h: string, opts: Options)
    requires h != [] && opts.shortenHome
    ensures CallOutcome(RaisedOsError(ENOENT), home, opts) == Failure(IndexError)
    ensures CallOutcome(Returned(Text(h)), Text(h), opts) == Failure(IndexError)
  {
    NotFoundHasNoSeparator();
    assert ReplaceHome(h, h) == HomeMarker;
  }

  /** The not-found placeholder holds no separator, so `__call__` cannot split it into a parent. */
  lemma NotFoundHasNoSeparator()
    ensures Separator !in NotFound
  {
    assert NotFound == ['[', 'n', 'o', 't', ' ', 'f', 'o', 'u', 'n', 'd', ']'];
  }

  /** The single record that stands for a working directory that no longer exists. */
  function NotFoundRecord(opts: Options): Segment {
    Segment(NotFound, DividerGroup, !opts.usePathSeparator)
  }

  /**
    The evidently intended behaviour: a working directory that vanished is
    shown as one `[not found]` record next to the warning, and a shortened
    path without a separator (`~`) has no parent to show, so the segment
    list is empty; everything else is as written.
   */
  function CorrectedOutcome(getcwd: GetcwdOutcome, home: PyValue, opts: Options): (r: Result<seq<Segment>, PyError>)
    ensures r.Success? <==> GetShortenedPath(getcwd, home, opts.shortenHome).result.Success?
    ensures getcwd == RaisedOsError(ENOENT) ==> r == Success([NotFoundRecord(opts)])
    ensures var sp := GetShortenedPath(getcwd, home, opts.shortenHome).result;
            sp.Failure? ==> r == Failure(sp.error)
    ensures var sp := GetShortenedPath(getcwd, home, opts.shortenHome).result;
            getcwd != RaisedOsError(ENOENT) && sp.Success? && Separator !in sp.value ==> r == Success([])
    ensures var sp := GetShortenedPath(getcwd, home, opts.shortenHome).result;
            sp.Success? && Separator in sp.value ==> r == Success(FullPathRecords(sp.value, opts))
  {
    var sp := GetShortenedPath(getcwd, home, opts.shortenHome).result;
    NotFoundHasNoSeparator();
    if getcwd == RaisedOsError(ENOENT) then Success([NotFoundRecord(opts)])
    else if sp.Failure? then Failure(sp.error)
    else if Separator in sp.value then Success(FullPathRecords(sp.value, opts))
    else Success([])
  }

  /**
    `__call__` with a guard: the not-found placeholder becomes its own record,
    and no parent directory means no segments.
   */
  method FullPathCorrected(getcwd: GetcwdOutcome, home: PyValue, opts: Options)
    returns (r: Result<seq<Segment>, PyError>, warned: bool)
    ensures warned <==> getcwd == RaisedOsError(ENOENT)
    ensures r == CorrectedOutcome(getcwd, home, opts)
  {
    var shortened := GetShortenedPath(getcwd, home, opts.shortenHome);
    warned := shortened.warned;
    if warned {
      r := Success([NotFoundRecord(opts)]);
      return;
    }
    if shortened.result.Failure? {
      r := Failure(shortened.result.error);
      return;
    }
    var path := shortened.result.value;
    if |Split(path)| - 1 == 0 {
      r := Success([]);
      return;
    }
    var segs := FullPathSegments(path, opts);
    r := Success(segs);
  }

  /**
    The correction never raises IndexError and changes nothing where the code
    as written succeeds or raises something else; where it crashes, the
    correction shows the `[not found]` record after errno 2 and no records
    otherwise.
   */
  lemma CorrectionOnlyRemovesCrash(getcwd: GetcwdOutcome, home: PyValue, opts: Options)
    ensures CorrectedOutcome(getcwd, home, opts) != Failure(IndexError)
    ensures CallOutcome(getcwd, home, opts) != Failure(IndexError) ==>
              CorrectedOutcome(getcwd, home, opts) == CallOutcome(getcwd, home, opts)
    ensures CallOutcome(getcwd, home, opts) == Failure(IndexError) ==>
              CorrectedOutcome(getcwd, home, opts) ==
                if getcwd == RaisedOsError(ENOENT) then Success([NotFoundRecord(opts)]) else Success([])
  {
  }

  /**
    With the defaults of line 48 (no shortening, no depth limit, no path
    separator) the records show exactly the non-empty ancestors, with the
    root shown as `/`.
   */
  lemma DefaultsShowAncestors(path: string)
    requires Separator in path
    ensures Contents(FullPathRecords(path, DefaultOptions)) == NonEmpty(MarkRoot(Ancestors(path)))
  {
    PlainModeShowsEntries(path, DefaultOptions);
  }
}
