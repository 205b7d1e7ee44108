/**
 * The pure reconciliation of lib/sync/index.js: the destination index that
 * `_.keyBy` builds over the destination listing, the base name that the
 * skip list is matched against, and the copy-or-skip decision.
 */
module Reconcile {
  import opened Records

  /** The last path segment: everything after the last '/', or the whole path
      when it has none. */
  function Basename(p: string): string {
    if p == [] then []
    else if p[|p| - 1] == '/' then []
    else Basename(p[..|p| - 1]) + [p[|p| - 1]]
  }

  /** Basename gives a '/'-free suffix of the path that is either the whole
      path or follows a '/'. */
  lemma {:induction false} BasenameIsLastSegment(p: string)
    ensures var name := Basename(p);
      && '/' !in name
      && |name| <= |p| && p[|p| - |name|..] == name
      && (|name| == |p| || p[|p| - |name| - 1] == '/')
  {
    if p != [] && p[|p| - 1] != '/' {
      var q := p[..|p| - 1];
      BasenameIsLastSegment(q);
      var name := Basename(q);
      assert Basename(p) == name + [p[|p| - 1]];
      assert p[|p| - |name| - 1..] == q[|q| - |name|..] + [p[|p| - 1]];
    }
  }

  /** The three properties of Basename's contract pin its result down: any
      '/'-free suffix of `p` that is the whole path or follows a '/' is the
      base name. */
  lemma BasenameUnique(p: string, name: string)
    requires '/' !in name
    requires |name| <= |p| && p[|p| - |name|..] == name
    requires |name| == |p| || p[|p| - |name| - 1] == '/'
    ensures name == Basename(p)
  {
    BasenameIsLastSegment(p);
    var b := Basename(p);
    assert |name| == |b|;
  }

  /** The base name of a file in a directory is the file's own name. */
  lemma BasenameOfJoin(dir: string, name: string)
    requires '/' !in name
    ensures Basename(dir + "/" + name) == name
  {
    var p := dir + "/" + name;
    assert p[|p| - |name|..] == name;
    assert p[|p| - |name| - 1] == '/';
    BasenameUnique(p, name);
  }

  /** The position of the last entry of `s` with path `p`, or -1 when there is
      none: a search from the end of the listing. */
  function LastIndex(s: seq<FileRecord>, p: string): (k: int)
    ensures -1 <= k < |s|
    ensures k >= 0 ==> s[k].path == p
    ensures forall j | k < j < |s| :: s[j].path != p
  {
    if s == [] then -1
    else if s[|s| - 1].path == p then |s| - 1
    else LastIndex(s[..|s| - 1], p)
  }

  /** The destination index of line 85: `_.keyBy` over the destination
      listing, a fold that stores each entry under its full path. */
  function KeyBy(s: seq<FileRecord>): map<string, FileRecord> {
    if s == [] then map[]
    else KeyBy(s[..|s| - 1])[s[|s| - 1].path := s[|s| - 1]]
  }

  /** The index holds exactly the paths of the listing, and when a path occurs
      more than once, the later entry wins. */
  lemma {:induction false} KeyByIsLastEntry(s: seq<FileRecord>)
    ensures forall p :: p in KeyBy(s) <==> LastIndex(s, p) >= 0
    ensures forall p | p in KeyBy(s) :: KeyBy(s)[p] == s[LastIndex(s, p)]
  {
    if s != [] {
      KeyByIsLastEntry(s[..|s| - 1]);
    }
  }

  /** Containers list each path once. */
  ghost predicate PathsDistinct(s: seq<FileRecord>) {
    forall i, j | 0 <= i < j < |s| :: s[i].path != s[j].path
  }

  /** Under distinct paths every record is found in the index under its own
      path. */
  lemma KeyByFindsEach(s: seq<FileRecord>, i: nat)
    requires PathsDistinct(s) && i < |s|
    ensures s[i].path in KeyBy(s) && KeyBy(s)[s[i].path] == s[i]
  {
    KeyByIsLastEntry(s);
    var k := LastIndex(s, s[i].path);
    assert k >= i;
    assert k == i;
  }

  /** Entries appended after `d` whose paths all differ from `p` leave the
      last entry with path `p` where it was. */
  lemma {:induction false} LastIndexAppendOther(d: seq<FileRecord>, w: seq<FileRecord>, p: string)
    requires forall k | 0 <= k < |w| :: w[k].path != p
    ensures LastIndex(d + w, p) == LastIndex(d, p)
  {
    if w != [] {
      var w' := w[..|w| - 1];
      assert (d + w)[..|d + w| - 1] == d + w';
      LastIndexAppendOther(d, w', p);
    } else {
      assert d + w == d;
    }
  }

  /** When an entry appended after `d` has path `p`, the last entry with path
      `p` is one of the appended ones. */
  lemma {:induction false} LastIndexAppendHit(d: seq<FileRecord>, w: seq<FileRecord>, k: nat)
    requires k < |w|
    ensures LastIndex(d + w, w[k].path) >= |d|
  {
    var p := w[k].path;
    if w[|w| - 1].path != p {
      var w' := w[..|w| - 1];
      assert (d + w)[..|d + w| - 1] == d + w';
      LastIndexAppendHit(d, w', k);
    }
  }

  /** The index over a listing extended by `w` agrees with the index over `d`
      at every path that `w` does not mention. */
  lemma KeyByAppendOther(d: seq<FileRecord>, w: seq<FileRecord>, p: string)
    requires forall k | 0 <= k < |w| :: w[k].path != p
    ensures p in KeyBy(d + w) <==> p in KeyBy(d)
    ensures p in KeyBy(d) ==> KeyBy(d + w)[p] == KeyBy(d)[p]
  {
    LastIndexAppendOther(d, w, p);
    KeyByIsLastEntry(d);
    KeyByIsLastEntry(d + w);
    if p in KeyBy(d) {
      assert (d + w)[LastIndex(d, p)] == d[LastIndex(d, p)];
    }
  }

  /** At a path that `w` mentions, the index over `d + w` holds an entry of
      `w`. */
  lemma KeyByAppendHit(d: seq<FileRecord>, w: seq<FileRecord>, k: nat)
    requires k < |w|
    ensures w[k].path in KeyBy(d + w)
    ensures exists m | 0 <= m < |w| :: w[m].path == w[k].path && KeyBy(d + w)[w[k].path] == w[m]
  {
    LastIndexAppendHit(d, w, k);
    KeyByIsLastEntry(d + w);
    var i := LastIndex(d + w, w[k].path);
    assert (d + w)[i] == w[i - |d|];
  }

  /** The copy-or-skip decision of lines 93-99: never for a file whose base
      name is in the skip list; otherwise when the destination has no entry at
      the same path, the sizes differ, or the source is strictly newer. */
  predicate ShouldCopy(src: FileRecord, index: map<string, FileRecord>, skipFileNames: seq<string>) {
    && Basename(src.path) !in skipFileNames
    && (|| src.path !in index
        || src.size != index[src.path].size
        || src.mtime > index[src.path].mtime)
  }
}
