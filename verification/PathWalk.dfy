/**
 fs_load_path: walk an absolute path level by level, loading each directory into its own
 buffer and searching the next name in the one just loaded.

 The disk driver is a parameter: `ok` says which loads succeed.  Every load requested is
 recorded, so that what the walk asks for can be stated.  A path is the memory behind a
 pointer.  The scan of a level does not look for the terminator, so the routine may read on
 behind the string; running off the end of memory is an outcome of its own here, as is a
 kernel panic.
 */
module PathWalk {
  import opened CString
  import opened Sequences

  const FS_N_BUFFERS := 5
  const MAX_CHARS := 2000

  datatype Place = RootDir | Buffer(index: nat) | Caller

  /** One call of the disk driver: look for `name` in `src`, put the file into `dst`. */
  datatype Load = Load(src: Place, name: string, dst: Place)

  datatype Outcome = Loaded | Failed | Panic | ReadPastEnd

  datatype Walked = Walked(log: seq<Load>, outcome: Outcome) {
    function Parts(): (Outcome, seq<Load>) {
      (outcome, log)
    }
  }

  // ------------------------------------------------------------------ counting levels

  function Slashes(s: string): nat {
    if s == [] then 0 else (if s[0] == '/' then 1 else 0) + Slashes(s[1..])
  }

  /** The part of the path the level counter looks at. */
  function Counted(m: seq<char>): string {
    Text(m, 0)[..if StrEnd(m, 0) < MAX_CHARS then StrEnd(m, 0) else MAX_CHARS]
  }

  method FsCountPathLevels(m: seq<char>) returns (n: nat)
    requires Terminated(m, 0)
    ensures n == Slashes(Counted(m))
  {
    n := 0;
    ghost var s := Counted(m);
    if m[0] == NUL {
      return;
    }
    var i := 0;
    while i < MAX_CHARS
      invariant 0 <= i <= |s|
      invariant Slashes(s) == n + Slashes(s[i..])
    {
      if m[i] == NUL {
        break;
      }
      assert s[i] == m[i] && s[i..][1..] == s[i + 1..];
      if m[i] == '/' {
        n := n + 1;
      }
      i := i + 1;
    }
    assert s[i..] == [];
  }

  // ------------------------------------------------------------------ one level

  datatype Stop = Dot(i: nat) | Slash(i: nat) | Full | PastEnd

  /** Where the twelve-character scan of a level stops. */
  function Scan(p: seq<char>, i: nat): (s: Stop)
    requires i <= 12 && i <= |p|
    ensures s.Dot? || s.Slash? ==> i <= s.i < 12 && s.i < |p|
    ensures s.Full? ==> 12 <= |p|
    decreases |p| - i
  {
    if i == 12 then Full
    else if i == |p| then PastEnd
    else if p[i] == '.' then Dot(i)
    else if p[i] == '/' then Slash(i)
    else Scan(p, i + 1)
  }

  /** Up to k extension characters, ended by a NUL; nothing if memory ends first. */
  function ExtChars(p: seq<char>, k: nat): Option<string> {
    if k == 0 then Some([])
    else if p == [] then None
    else if p[0] == NUL then Some([])
    else match ExtChars(p[1..], k - 1)
      case None => None
      case Some(rest) => Some([p[0]] + rest)
  }

  function DirName(d: string): string {
    d + Spaces(11 - |d|)
  }

  function FileName(base: string, ext: string): string {
    base + Spaces(8 - |base|) + ext + Spaces(3 - |ext|)
  }

  /** The last level, whose name has a dot at i. */
  function FileLevel(p: seq<char>, i: nat, l: nat, n: nat, src: Place, ok: Load -> bool): Walked
    requires i < |p|
  {
    if l != n - 1 || i == 0 || i > 8 then Walked([], Panic)
    else match ExtChars(p[i + 1..], 3)
      case None => Walked([], ReadPastEnd)
      case Some(ext) =>
        var load := Load(src, FileName(p[..i], ext), Caller);
        Walked([load], if ok(load) then Loaded else Panic)
  }

  /** A level either ends the walk or hands over to the next one, which searches in src. */
  datatype Level = Ends(w: Walked) | Goes(log: seq<Load>, p: seq<char>, src: Place)

  /** One level, from its slash on. */
  function OneLevel(p: seq<char>, l: nat, n: nat, src: Place, ok: Load -> bool): Level
    requires p != []
  {
    var q := p[1..];
    match Scan(q, 0)
    case PastEnd => Ends(Walked([], ReadPastEnd))
    case Full => Goes([], q[12..], src)
    case Dot(i) => Ends(FileLevel(q, i, l, n, src, ok))
    case Slash(i) =>
      if i == 0 || i >= 11 then Ends(Walked([], Panic))
      else
        var load := Load(src, DirName(q[..i]), Buffer(l));
        if ok(load) then Goes([load], q[i..], Buffer(l)) else Ends(Walked([load], Panic))
  }

  /** The walk from level l on; p is the memory at the pointer, src the directory to search. */
  function Walk(p: seq<char>, l: nat, n: nat, src: Place, ok: Load -> bool): Walked
    decreases n - l
  {
    if l >= n then Walked([], Failed)
    else if p == [] then Walked([], ReadPastEnd)
    else if p[0] != '/' then Walked([], Panic)
    else match OneLevel(p, l, n, src, ok)
      case Ends(w) => w
      case Goes(log, p', src') =>
        var rest := Walk(p', l + 1, n, src', ok);
        Walked(log + rest.log, rest.outcome)
  }

  function LoadPath(m: seq<char>, address: nat, size: nat, ok: Load -> bool): Walked
    requires Terminated(m, 0)
  {
    var n := Slashes(Counted(m));
    if m[0] == NUL || address == 0 || size == 0 then Walked([], Panic)
    else if n <= 0 || n >= FS_N_BUFFERS || m[0] != '/' then Walked([], Panic)
    else Walk(m, 0, n, RootDir, ok)
  }

  // ------------------------------------------------------------------ the walk asks for what the path says

  /** A name in which the scan does not stop. */
  ghost predicate Unbroken(s: string) {
    forall k :: 0 <= k < |s| ==> s[k] != '.' && s[k] != '/'
  }

  /** The lengths of directory names the walk gets past: up to ten characters, or exactly twelve. */
  predicate PassableLength(d: string) {
    1 <= |d| <= 10 || |d| == 12
  }

  ghost predicate Passable(dirs: seq<string>) {
    forall k :: 0 <= k < |dirs| ==> PassableLength(dirs[k]) && Unbroken(dirs[k])
  }

  /** The directory part of an absolute path. */
  function RenderDirs(dirs: seq<string>): string {
    if dirs == [] then [] else ("/" + dirs[0]) + RenderDirs(dirs[1..])
  }

  /**
   The loads for a path, from level l on: each name padded to eleven and searched in the
   buffer filled just before.  A name of exactly twelve characters is passed over.
   */
  function Expected(dirs: seq<string>, base: string, ext: string, l: nat, src: Place): seq<Load> {
    if dirs == [] then [Load(src, FileName(base, ext), Caller)]
    else if |dirs[0]| == 12 then Expected(dirs[1..], base, ext, l + 1, src)
    else [Load(src, DirName(dirs[0]), Buffer(l))] + Expected(dirs[1..], base, ext, l + 1, Buffer(l))
  }

  /** p is the memory of a path: directories, then a file name with the extension as far as it is read. */
  ghost predicate IsPath(p: seq<char>, dirs: seq<string>, base: string, ext: string, tail: seq<char>) {
    && p == RenderDirs(dirs) + LastLevel(base, ext, tail)
    && Passable(dirs)
    && 1 <= |base| <= 8 && Unbroken(base)
    && |ext| <= 3 && NulFree(ext)
    && (|ext| < 3 ==> |tail| > 0 && tail[0] == NUL)
  }

  function LastLevel(base: string, ext: string, tail: seq<char>): string {
    "/" + (base + ("." + (ext + tail)))
  }

  lemma {:induction false} ScanStopsAfter(q: seq<char>, d: string, i: nat)
    requires Unbroken(d) && d <= q && i <= |d| <= 12
    requires |d| < 12 ==> |d| < |q| && (q[|d|] == '.' || q[|d|] == '/')
    ensures Scan(q, i) == if |d| == 12 then Full else if q[|d|] == '.' then Dot(|d|) else Slash(|d|)
    decreases |d| - i
  {
    if i < |d| {
      assert q[i] == d[i];
      ScanStopsAfter(q, d, i + 1);
    }
  }

  lemma {:induction false} ExtIsRead(ext: string, tail: seq<char>, k: nat)
    requires |ext| <= k && NulFree(ext) && (|ext| < k ==> |tail| > 0 && tail[0] == NUL)
    ensures ExtChars(ext + tail, k) == Some(ext)
  {
    if ext != [] {
      assert (ext + tail)[1..] == ext[1..] + tail;
      ExtIsRead(ext[1..], tail, k - 1);
      assert ext == [ext[0]] + ext[1..];
    }
  }

  lemma LastLevelIsLoaded(base: string, ext: string, tail: seq<char>, l: nat, n: nat, src: Place, ok: Load -> bool)
    requires 1 <= |base| <= 8 && Unbroken(base) && |ext| <= 3 && NulFree(ext) && l == n - 1
    requires |ext| < 3 ==> |tail| > 0 && tail[0] == NUL
    requires ok(Load(src, FileName(base, ext), Caller))
    ensures Walk(LastLevel(base, ext, tail), l, n, src, ok) == Walked([Load(src, FileName(base, ext), Caller)], Loaded)
  {
    var q := base + ("." + (ext + tail));
    assert LastLevel(base, ext, tail)[1..] == q;
    ScanStopsAfter(q, base, 0);
    assert q[..|base|] == base;
    assert q[|base| + 1..] == ext + tail;
    ExtIsRead(ext, tail, 3);
  }

  /** Along a path whose loads succeed, the walk asks for exactly the expected loads. */
  lemma {:induction false} WalkFollowsPath(p: seq<char>, dirs: seq<string>, base: string, ext: string, tail: seq<char>,
                                           l: nat, n: nat, src: Place, ok: Load -> bool)
    requires IsPath(p, dirs, base, ext, tail) && n == l + |dirs| + 1
    requires forall k :: 0 <= k < |Expected(dirs, base, ext, l, src)| ==> ok(Expected(dirs, base, ext, l, src)[k])
    ensures Walk(p, l, n, src, ok) == Walked(Expected(dirs, base, ext, l, src), Loaded)
    decreases |dirs|
  {
    var want := Expected(dirs, base, ext, l, src);
    if dirs == [] {
      assert p == LastLevel(base, ext, tail);
      assert ok(want[0]);
      LastLevelIsLoaded(base, ext, tail, l, n, src, ok);
    } else {
      var d, rest := dirs[0], dirs[1..];
      var p' := RenderDirs(rest) + LastLevel(base, ext, tail);
      DirLevel(p, d, p');
      var src' := if |d| == 12 then src else Buffer(l);
      var want' := Expected(rest, base, ext, l + 1, src');
      if |d| == 12 {
        assert want == want';
      } else {
        assert want[0] == Load(src, DirName(d), Buffer(l)) && want[1..] == want';
        assert ok(want[0]);
        forall k | 0 <= k < |want'| ensures ok(want'[k]) {
          assert want'[k] == want[k + 1];
        }
      }
      WalkFollowsPath(p', rest, base, ext, tail, l + 1, n, src', ok);
    }
  }

  /** What the scan of a directory level finds, and where the next level starts. */
  lemma DirLevel(p: seq<char>, d: string, p': seq<char>)
    requires p == "/" + d + p' && |p'| > 0 && p'[0] == '/'
    requires PassableLength(d) && Unbroken(d)
    ensures p[0] == '/' && p[1..] == d + p' && p[1..][..|d|] == d && p[1..][|d|..] == p'
    ensures Scan(p[1..], 0) == if |d| == 12 then Full else Slash(|d|)
  {
    assert p[1..] == d + p';
    ScanStopsAfter(p[1..], d, 0);
  }

  // ------------------------------------------------------------------ and for nothing else

  /** What the scan has passed over. */
  lemma {:induction false} ScanIsUnbroken(q: seq<char>, i: nat)
    requires i <= 12 && i <= |q| && Unbroken(q[..i])
    ensures var s := Scan(q, i);
      && (s.Dot? ==> Unbroken(q[..s.i]) && q[s.i] == '.')
      && (s.Slash? ==> Unbroken(q[..s.i]) && q[s.i] == '/')
      && (s.Full? ==> Unbroken(q[..12]))
    decreases 12 - i
  {
    if i < 12 && i < |q| && q[i] != '.' && q[i] != '/' {
      assert q[..i + 1] == q[..i] + [q[i]];
      ScanIsUnbroken(q, i + 1);
    }
  }

  lemma {:induction false} ExtCharsAre(p: seq<char>, k: nat)
    requires ExtChars(p, k).Some?
    ensures var ext := ExtChars(p, k).value;
      && |ext| <= k && NulFree(ext) && ext <= p
      && (|ext| < k ==> |ext| < |p| && p[|ext|] == NUL)
  {
    if k > 0 && p != [] && p[0] != NUL {
      ExtCharsAre(p[1..], k - 1);
      var rest := ExtChars(p[1..], k - 1).value;
      assert p == [p[0]] + p[1..];
    }
  }

  /** A file level that succeeds is the end of a path. */
  lemma FileLevelIsPath(p: seq<char>, i: nat, l: nat, n: nat, src: Place, ok: Load -> bool)
    returns (base: string, ext: string, tail: seq<char>)
    requires p != [] && p[0] == '/' && i < |p[1..]| && p[1..][i] == '.' && Unbroken(p[1..][..i])
    requires FileLevel(p[1..], i, l, n, src, ok).outcome == Loaded
    ensures IsPath(p, [], base, ext, tail) && n == l + 1
    ensures FileLevel(p[1..], i, l, n, src, ok).log == Expected([], base, ext, l, src)
  {
    var q := p[1..];
    ExtCharsAre(q[i + 1..], 3);
    base, ext := q[..i], ExtChars(q[i + 1..], 3).value;
    tail := q[i + 1..][|ext|..];
    Reassemble(p, i, ext, tail);
  }

  lemma Reassemble(p: seq<char>, i: nat, ext: string, tail: seq<char>)
    requires p != [] && p[0] == '/' && i < |p[1..]| && p[1..][i] == '.'
    requires p[1..][i + 1..] == ext + tail
    ensures p == RenderDirs([]) + LastLevel(p[1..][..i], ext, tail)
  {
    var q := p[1..];
    assert q == q[..i] + (['.'] + q[i + 1..]);
    assert p == ['/'] + q;
  }

  /** A level that goes on has read a directory name: loaded, or passed over if twelve long. */
  lemma LevelThatGoesOn(p: seq<char>, l: nat, n: nat, src: Place, ok: Load -> bool) returns (d: string)
    requires p != [] && p[0] == '/' && OneLevel(p, l, n, src, ok).Goes?
    ensures var g := OneLevel(p, l, n, src, ok);
      && p == ['/'] + (d + g.p)
      && PassableLength(d) && Unbroken(d)
      && g.src == (if |d| == 12 then src else Buffer(l))
      && g.log == (if |d| == 12 then [] else [Load(src, DirName(d), Buffer(l))])
      && (forall k :: 0 <= k < |g.log| ==> ok(g.log[k]))
  {
    var q := p[1..];
    assert Unbroken(q[..0]);
    ScanIsUnbroken(q, 0);
    var stop := Scan(q, 0);
    var i := if stop.Full? then 12 else stop.i;
    d := q[..i];
    assert q == d + q[i..];
  }

  /** A level that ends in success is the last level of a path. */
  lemma LevelThatSucceeds(p: seq<char>, l: nat, n: nat, src: Place, ok: Load -> bool)
    returns (base: string, ext: string, tail: seq<char>)
    requires p != [] && p[0] == '/' && OneLevel(p, l, n, src, ok).Ends? && OneLevel(p, l, n, src, ok).w.outcome == Loaded
    ensures IsPath(p, [], base, ext, tail) && n == l + 1
    ensures OneLevel(p, l, n, src, ok).w.log == Expected([], base, ext, l, src)
  {
    var q := p[1..];
    assert Unbroken(q[..0]);
    ScanIsUnbroken(q, 0);
    base, ext, tail := FileLevelIsPath(p, Scan(q, 0).i, l, n, src, ok);
  }

  /**
   A walk that ends in success ran along a path: the memory decomposes into passable directory
   names and a file name, and the loads were the expected ones.
   */
  lemma {:induction false} LoadedOnlyAlongPath(p: seq<char>, l: nat, n: nat, src: Place, ok: Load -> bool)
    returns (dirs: seq<string>, base: string, ext: string, tail: seq<char>)
    requires Walk(p, l, n, src, ok).outcome == Loaded
    ensures IsPath(p, dirs, base, ext, tail) && n == l + |dirs| + 1
    ensures Walk(p, l, n, src, ok).log == Expected(dirs, base, ext, l, src)
    decreases n - l
  {
    var level := OneLevel(p, l, n, src, ok);
    if level.Ends? {
      dirs := [];
      base, ext, tail := LevelThatSucceeds(p, l, n, src, ok);
    } else {
      var d := LevelThatGoesOn(p, l, n, src, ok);
      var rest: seq<string>;
      rest, base, ext, tail := LoadedOnlyAlongPath(level.p, l + 1, n, level.src, ok);
      PathExtends(p, d, level.p, rest, base, ext, tail);
      dirs := [d] + rest;
      assert Expected(dirs, base, ext, l, src) == level.log + Expected(rest, base, ext, l + 1, level.src);
    }
  }

  lemma PathExtends(p: seq<char>, d: string, p': seq<char>, dirs: seq<string>, base: string, ext: string, tail: seq<char>)
    requires IsPath(p', dirs, base, ext, tail)
    requires p == ['/'] + (d + p') && PassableLength(d) && Unbroken(d)
    ensures IsPath(p, [d] + dirs, base, ext, tail)
    ensures ([d] + dirs)[1..] == dirs
  {
    var all := [d] + dirs;
    assert all[1..] == dirs;
    assert p == ("/" + d) + RenderDirs(dirs) + LastLevel(base, ext, tail);
    forall k | 0 <= k < |all| ensures PassableLength(all[k]) && Unbroken(all[k]) {
      assert k > 0 ==> all[k] == dirs[k - 1];
    }
  }

  // ------------------------------------------------------------------ every walk

  /** Each load is searched in the place the one before filled, starting from src. */
  ghost predicate Linked(log: seq<Load>, src: Place) {
    && (|log| > 0 ==> log[0].src == src)
    && (forall k :: 0 < k < |log| ==> log[k].src == log[k - 1].dst)
  }

  /** Directories go to distinct buffers of levels l to n, in order; only the last load goes to the caller. */
  ghost predicate Placed(log: seq<Load>, l: nat, n: nat) {
    && (forall k :: 0 <= k < |log| ==> |log[k].name| == 11)
    && (forall k :: 0 <= k < |log| ==> match log[k].dst
          case Caller => k == |log| - 1
          case Buffer(b) => l + k <= b < n
          case RootDir => false)
    && (forall j, k :: 0 <= j < k < |log| && log[j].dst.Buffer? && log[k].dst.Buffer? ==>
          log[j].dst.index < log[k].dst.index)
  }

  ghost predicate Chain(w: Walked, l: nat, n: nat, src: Place, ok: Load -> bool) {
    && Linked(w.log, src) && Placed(w.log, l, n)
    && (forall k :: 0 <= k < |w.log| - 1 ==> ok(w.log[k]))
    && (w.outcome == Loaded <==> |w.log| > 0 && w.log[|w.log| - 1].dst == Caller && ok(w.log[|w.log| - 1]))
    && (w.outcome != Panic && |w.log| > 0 ==> ok(w.log[|w.log| - 1]))
  }

  /**
   Whatever the memory and whichever loads succeed, the loads form one chain from the starting
   directory, no two write the same buffer, none follows a failed one, and the walk
   succeeds exactly when its last load goes to the caller and succeeds.
   */
  lemma {:induction false} EveryWalkIsAChain(p: seq<char>, l: nat, n: nat, src: Place, ok: Load -> bool)
    ensures Chain(Walk(p, l, n, src, ok), l, n, src, ok)
    decreases n - l
  {
    if l < n && p != [] && p[0] == '/' {
      var level := OneLevel(p, l, n, src, ok);
      if level.Ends? {
        LastLevelIsAChain(p, l, n, src, ok);
      } else {
        var d := LevelThatGoesOn(p, l, n, src, ok);
        var rest := Walk(level.p, l + 1, n, level.src, ok);
        EveryWalkIsAChain(level.p, l + 1, n, level.src, ok);
        if |d| == 12 {
          assert [] + rest.log == rest.log;
          ChainFromLater(rest, l, n, src, ok);
        } else {
          assert ok(level.log[0]);
          ChainGrows(level.log[0], rest, l, n, src, ok);
        }
      }
    }
  }

  lemma LastLevelIsAChain(p: seq<char>, l: nat, n: nat, src: Place, ok: Load -> bool)
    requires l < n && p != [] && p[0] == '/' && OneLevel(p, l, n, src, ok).Ends?
    ensures Chain(OneLevel(p, l, n, src, ok).w, l, n, src, ok)
  {
    var q := p[1..];
    var stop := Scan(q, 0);
    if stop.Dot? {
      FileLevelIsAChain(q, stop.i, l, n, src, ok);
    }
  }

  lemma ChainFromLater(w: Walked, l: nat, n: nat, src: Place, ok: Load -> bool)
    requires Chain(w, l + 1, n, src, ok)
    ensures Chain(w, l, n, src, ok)
  {
  }

  lemma FileLevelIsAChain(q: seq<char>, i: nat, l: nat, n: nat, src: Place, ok: Load -> bool)
    requires i < |q|
    ensures Chain(FileLevel(q, i, l, n, src, ok), l, n, src, ok)
  {
    if ExtChars(q[i + 1..], 3).Some? {
      ExtCharsAre(q[i + 1..], 3);
    }
  }

  lemma ChainGrows(load: Load, rest: Walked, l: nat, n: nat, src: Place, ok: Load -> bool)
    requires l < n && load.src == src && load.dst == Buffer(l) && |load.name| == 11 && ok(load)
    requires Chain(rest, l + 1, n, Buffer(l), ok)
    ensures Chain(Walked([load] + rest.log, rest.outcome), l, n, src, ok)
  {
    var log := [load] + rest.log;
    assert forall k :: 0 < k < |log| ==> log[k] == rest.log[k - 1];
    assert Linked(log, src) by {
      forall k | 0 < k < |log| ensures log[k].src == log[k - 1].dst {
        assert k > 1 ==> rest.log[k - 1].src == rest.log[k - 2].dst;
      }
    }
  }

  // ------------------------------------------------------------------ whole paths

  ghost predicate SlashFree(s: string) {
    forall k :: 0 <= k < |s| ==> s[k] != '/'
  }

  lemma {:induction false} SlashesAdd(a: string, b: string)
    ensures Slashes(a + b) == Slashes(a) + Slashes(b)
  {
    if a == [] {
      assert a + b == b;
    } else {
      assert (a + b)[1..] == a[1..] + b;
      SlashesAdd(a[1..], b);
    }
  }

  lemma {:induction false} NoSlashes(s: string)
    requires SlashFree(s)
    ensures Slashes(s) == 0
  {
    if s != [] {
      NoSlashes(s[1..]);
    }
  }

  lemma TextOfPath(text: string, junk: seq<char>)
    requires NulFree(text)
    ensures Terminated(text + ([NUL] + junk), 0) && Text(text + ([NUL] + junk), 0) == text
  {
    var m := text + ([NUL] + junk);
    assert m[|text|] == NUL;
    StrEndIs(m, 0, |text|);
  }

  lemma LastIsPlain(base: string, ext: string, more: string)
    requires Unbroken(base) && NulFree(base) && NulFree(ext) && SlashFree(ext) && NulFree(more) && SlashFree(more)
    ensures NulFree(base + ("." + (ext + more))) && SlashFree(base + ("." + (ext + more)))
  {
  }

  lemma Regroup(front: string, base: string, ext: string, more: string, junk: seq<char>)
    ensures front + LastLevel(base, ext, more + ([NUL] + junk)) ==
      ((front + "/") + (base + ("." + (ext + more)))) + ([NUL] + junk)
  {
    assert ext + (more + ([NUL] + junk)) == (ext + more) + ([NUL] + junk);
    assert base + ("." + ((ext + more) + ([NUL] + junk))) == (base + ("." + (ext + more))) + ([NUL] + junk);
  }

  lemma StartsWithSlash(m: seq<char>, dirs: seq<string>, base: string, ext: string, tail: seq<char>)
    requires m == RenderDirs(dirs) + LastLevel(base, ext, tail)
    ensures |m| > 0 && m[0] == '/'
  {
    if dirs != [] {
      assert RenderDirs(dirs)[0] == '/';
    }
  }

  lemma {:induction false} ExpectedLength(dirs: seq<string>, base: string, ext: string, l: nat, src: Place)
    requires Passable(dirs)
    ensures 1 <= |Expected(dirs, base, ext, l, src)| <= |dirs| + 1
    ensures |Expected(dirs, base, ext, l, src)| == |dirs| + 1 <==> forall k :: 0 <= k < |dirs| ==> |dirs[k]| <= 10
    decreases |dirs|
  {
    if dirs != [] {
      var rest := dirs[1..];
      var src' := if |dirs[0]| == 12 then src else Buffer(l);
      ExpectedLength(rest, base, ext, l + 1, src');
      if forall k :: 0 <= k < |rest| ==> |rest[k]| <= 10 {
        forall k | 0 < k < |dirs| ensures |dirs[k]| <= 10 {
          assert dirs[k] == rest[k - 1];
        }
      } else {
        var k :| 0 <= k < |rest| && |rest[k]| > 10;
        assert dirs[k + 1] == rest[k];
      }
    }
  }

  /** The k-th load when every directory is loaded; the file comes last. */
  function NthLoad(dirs: seq<string>, base: string, ext: string, l: nat, src: Place, k: nat): Load
    requires k <= |dirs|
  {
    var from := if k == 0 then src else Buffer(l + k - 1);
    if k == |dirs| then Load(from, FileName(base, ext), Caller) else Load(from, DirName(dirs[k]), Buffer(l + k))
  }

  lemma {:induction false} ExpectedAt(dirs: seq<string>, base: string, ext: string, l: nat, src: Place, k: nat)
    requires k <= |dirs| && forall i :: 0 <= i < |dirs| ==> |dirs[i]| <= 10
    ensures |Expected(dirs, base, ext, l, src)| == |dirs| + 1
    ensures Expected(dirs, base, ext, l, src)[k] == NthLoad(dirs, base, ext, l, src, k)
    decreases |dirs|
  {
    if dirs != [] {
      ExpectedAt(dirs[1..], base, ext, l + 1, Buffer(l), if k == 0 then 0 else k - 1);
    }
  }

  // ------------------------------------------------------------------ every path

  /** Names as they occur between slashes. */
  ghost predicate Plain(dirs: seq<string>) {
    forall k :: 0 <= k < |dirs| ==> Unbroken(dirs[k]) && NulFree(dirs[k])
  }

  ghost predicate AllSucceed(ok: Load -> bool) {
    forall load :: ok(load)
  }

  function FirstImpassable(dirs: seq<string>): (j: nat)
    ensures j <= |dirs|
    ensures forall k :: 0 <= k < j ==> PassableLength(dirs[k])
    ensures j < |dirs| ==> !PassableLength(dirs[j])
  {
    if dirs == [] || !PassableLength(dirs[0]) then 0 else 1 + FirstImpassable(dirs[1..])
  }

  /** The loads of directories, and the directory reached. */
  function DirLoads(dirs: seq<string>, l: nat, src: Place): seq<Load> {
    if dirs == [] then []
    else if |dirs[0]| == 12 then DirLoads(dirs[1..], l + 1, src)
    else [Load(src, DirName(dirs[0]), Buffer(l))] + DirLoads(dirs[1..], l + 1, Buffer(l))
  }

  function Reached(dirs: seq<string>, l: nat, src: Place): Place {
    if dirs == [] then src else Reached(dirs[1..], l + 1, if |dirs[0]| == 12 then src else Buffer(l))
  }

  lemma {:induction false} ExpectedSplits(dirs: seq<string>, base: string, ext: string, l: nat, src: Place)
    ensures Expected(dirs, base, ext, l, src) ==
      DirLoads(dirs, l, src) + [Load(Reached(dirs, l, src), FileName(base, ext), Caller)]
    decreases |dirs|
  {
    if dirs != [] {
      ExpectedSplits(dirs[1..], base, ext, l + 1, if |dirs[0]| == 12 then src else Buffer(l));
    }
  }

  /** The walk along passable directories, up to whatever comes behind them. */
  lemma {:induction false} WalkThrough(p: seq<char>, dirs: seq<string>, rest: seq<char>, l: nat, n: nat, src: Place,
                                       ok: Load -> bool, top: nat, at: Place, w: Walked)
    requires p == RenderDirs(dirs) + rest && rest != [] && rest[0] == '/'
    requires Passable(dirs) && top == l + |dirs| <= n && AllSucceed(ok)
    requires at == Reached(dirs, l, src) && w == Walk(rest, top, n, at, ok)
    ensures Walk(p, l, n, src, ok) == Walked(DirLoads(dirs, l, src) + w.log, w.outcome)
    decreases |dirs|
  {
    if dirs == [] {
      assert p == rest;
    } else {
      var d, tail := dirs[0], dirs[1..];
      var p' := RenderDirs(tail) + rest;
      var src' := if |d| == 12 then src else Buffer(l);
      var first := if |d| == 12 then [] else [Load(src, DirName(d), Buffer(l))];
      FirstDirectory(dirs, d, tail, rest, l, src, src');
      LevelPasses(p, d, p', l, n, src, ok);
      WalkThrough(p', tail, rest, l + 1, n, src', ok, top, at, w);
      FirstThenOthers(first, DirLoads(tail, l + 1, src'), w.log);
    }
  }

  lemma FirstDirectory(dirs: seq<string>, d: string, tail: seq<string>, rest: seq<char>, l: nat, src: Place, src': Place)
    requires dirs != [] && d == dirs[0] && tail == dirs[1..] && src' == if |d| == 12 then src else Buffer(l)
    ensures RenderDirs(dirs) + rest == "/" + d + (RenderDirs(tail) + rest)
    ensures RenderDirs(tail) + rest == rest || (RenderDirs(tail) + rest != [] && (RenderDirs(tail) + rest)[0] == '/')
    ensures DirLoads(dirs, l, src) ==
      (if |d| == 12 then [] else [Load(src, DirName(d), Buffer(l))]) + DirLoads(tail, l + 1, src')
    ensures Reached(dirs, l, src) == Reached(tail, l + 1, src')
  {
  }

  lemma FirstThenOthers(first: seq<Load>, others: seq<Load>, last: seq<Load>)
    ensures first + (others + last) == (first + others) + last
  {
  }

  /** One passable directory. */
  lemma LevelPasses(p: seq<char>, d: string, p': seq<char>, l: nat, n: nat, src: Place, ok: Load -> bool)
    requires p == "/" + d + p' && |p'| > 0 && p'[0] == '/' && PassableLength(d) && Unbroken(d)
    requires l < n && AllSucceed(ok)
    ensures var rest := Walk(p', l + 1, n, if |d| == 12 then src else Buffer(l), ok);
      Walk(p, l, n, src, ok) ==
        Walked((if |d| == 12 then [] else [Load(src, DirName(d), Buffer(l))]) + rest.log, rest.outcome)
  {
    DirLevel(p, d, p');
    WalkUnfolds(p, l, n, src, ok);
  }

  /** Any other name ends the walk: in a panic, unless it is long and no further level was counted. */
  lemma ImpassableStops(p: seq<char>, d: string, p': seq<char>, l: nat, n: nat, src: Place, ok: Load -> bool)
    requires p == "/" + (d + p') && |p'| > 0 && p'[0] == '/' && !PassableLength(d) && Unbroken(d) && l < n
    ensures Walk(p, l, n, src, ok) == Walked([], if |d| >= 13 && n == l + 1 then Failed else Panic)
  {
    var q := d + p';
    assert p[1..] == q;
    WalkUnfolds(p, l, n, src, ok);
    if |d| >= 13 {
      ScanStopsAfter(q, d[..12], 0);
      assert q[12..][0] == d[12] != '/';
    } else {
      ScanStopsAfter(q, d, 0);
    }
  }

  /** The last level, whatever the length of its base. */
  lemma FileNameOutcome(base: string, ext: string, tail: seq<char>, l: nat, n: nat, src: Place, ok: Load -> bool, w: Walked)
    requires n == l + 1 && w == Walk(LastLevel(base, ext, tail), l, n, src, ok)
    requires Unbroken(base) && |ext| <= 3 && NulFree(ext) && (|ext| < 3 ==> |tail| > 0 && tail[0] == NUL)
    requires AllSucceed(ok)
    ensures w == if 1 <= |base| <= 8 then Walked([Load(src, FileName(base, ext), Caller)], Loaded)
                 else Walked([], if |base| >= 12 then Failed else Panic)
  {
    var p, q := LastLevel(base, ext, tail), base + ("." + (ext + tail));
    assert p[1..] == q;
    if 1 <= |base| <= 8 {
      LastLevelIsLoaded(base, ext, tail, l, n, src, ok);
    } else {
      WalkUnfolds(p, l, n, src, ok);
      ScanStopsAfter(q, if |base| >= 12 then base[..12] else base, 0);
    }
  }

  // ------------------------------------------------------------------ how many levels are counted

  /** The part of a path that is looked at for slashes. */
  function Window(text: string): string {
    text[..if |text| < MAX_CHARS then |text| else MAX_CHARS]
  }

  lemma {:induction false} SlashesOfPrefix(text: string, k: nat)
    requires k <= |text|
    ensures Slashes(text[..k]) <= Slashes(text)
  {
    SlashesAdd(text[..k], text[k..]);
    assert text == text[..k] + text[k..];
  }

  lemma SlashesInWindow(text: string, front: string)
    requires front <= text && |front| <= MAX_CHARS
    ensures Slashes(front) <= Slashes(Window(text)) <= Slashes(text)
  {
    assert Window(text)[..|front|] == front;
    SlashesOfPrefix(Window(text), |front|);
    SlashesOfPrefix(text, |Window(text)|);
  }

  /** A name behind which the next slash may lie outside the window. */
  lemma SlashBehindName(text: string, front: string, d: string, rest: string)
    requires text == front + (("/" + d) + rest) && rest != [] && rest[0] == '/' && SlashFree(d)
    requires |front| < MAX_CHARS
    ensures Slashes(Window(text)) >= Slashes(front) + 1
    ensures Slashes(Window(text)) == Slashes(front) + 1 <==> |front| + 1 + |d| >= MAX_CHARS
  {
    var name := "/" + d;
    assert name[1..] == d;
    NoSlashes(d);
    SlashesAdd(front, name);
    assert (front + "/") <= text;
    assert "/"[1..] == [];
    SlashesAdd(front, "/");
    SlashesInWindow(text, front + "/");
    if |front| + |name| >= MAX_CHARS {
      assert Window(text) == front + name[..MAX_CHARS - |front|];
      SlashesAdd(front, name[..MAX_CHARS - |front|]);
      SlashesOfPrefix(name, MAX_CHARS - |front|);
    } else {
      SlashesAdd(front + name, "/");
      assert (front + name) + "/" <= text;
      SlashesInWindow(text, (front + name) + "/");
    }
  }

  lemma {:induction false} RenderSplits(a: seq<string>, b: seq<string>)
    ensures RenderDirs(a + b) == RenderDirs(a) + RenderDirs(b)
  {
    if a == [] {
      assert a + b == b;
    } else {
      assert (a + b)[1..] == a[1..] + b;
      RenderSplits(a[1..], b);
    }
  }

  lemma {:induction false} SlashesOfDirs(dirs: seq<string>)
    requires Plain(dirs)
    ensures Slashes(RenderDirs(dirs)) == |dirs| && NulFree(RenderDirs(dirs))
  {
    if dirs != [] {
      var d := dirs[0];
      SlashesOfDirs(dirs[1..]);
      NoSlashes(d);
      assert ("/" + d)[1..] == d;
      SlashesAdd("/" + d, RenderDirs(dirs[1..]));
    }
  }

  lemma {:induction false} PassableIsShort(dirs: seq<string>)
    requires forall k :: 0 <= k < |dirs| ==> PassableLength(dirs[k])
    ensures |RenderDirs(dirs)| <= 13 * |dirs|
  {
    if dirs != [] {
      PassableIsShort(dirs[1..]);
    }
  }

  /** Directories, a slash and a last name, as the text of a path. */
  function PathText(dirs: seq<string>, last: string): string {
    RenderDirs(dirs) + ("/" + last)
  }

  /** Up to the first impassable name, or the first four names, every level is counted. */
  lemma LevelsUpTo(dirs: seq<string>, last: string, j: nat)
    requires Plain(dirs) && SlashFree(last) && j <= |dirs| && j < FS_N_BUFFERS
    requires forall k :: 0 <= k < j ==> PassableLength(dirs[k])
    ensures j + 1 <= Slashes(Window(PathText(dirs, last))) <= |dirs| + 1
  {
    var text, front := PathText(dirs, last), RenderDirs(dirs[..j]);
    PassableIsShort(dirs[..j]);
    SlashesOfDirs(dirs[..j]);
    OneMoreSlash(front);
    PathFront(dirs, last, j);
    SlashesInWindow(text, front + "/");
    SlashesOfDirs(dirs);
    NoSlashes(last);
    assert ("/" + last)[1..] == last;
    SlashesAdd(RenderDirs(dirs), "/" + last);
  }

  lemma OneMoreSlash(front: string)
    ensures Slashes(front + "/") == Slashes(front) + 1
  {
    assert "/"[1..] == [];
    SlashesAdd(front, "/");
  }

  /** Behind any number of its directories a path goes on with a slash. */
  lemma PathFront(dirs: seq<string>, last: string, j: nat)
    requires j <= |dirs|
    ensures RenderDirs(dirs[..j]) + "/" <= PathText(dirs, last)
  {
    var rest := RenderDirs(dirs[j..]) + ("/" + last);
    assert dirs == dirs[..j] + dirs[j..];
    RenderSplits(dirs[..j], dirs[j..]);
    StartsWithLevel(dirs[j..], "/" + last);
    assert PathText(dirs, last) == RenderDirs(dirs[..j]) + rest;
  }

  /** Whether the level behind the first impassable name is counted depends on where that name ends. */
  lemma LevelsBehind(dirs: seq<string>, last: string, j: nat)
    requires Plain(dirs) && SlashFree(last) && j < |dirs| && j < FS_N_BUFFERS
    requires forall k :: 0 <= k < j ==> PassableLength(dirs[k])
    ensures Slashes(Window(PathText(dirs, last))) == j + 1 <==> |RenderDirs(dirs[..j + 1])| >= MAX_CHARS
  {
    var front, d := RenderDirs(dirs[..j]), dirs[j];
    var rest := RenderDirs(dirs[j + 1..]) + ("/" + last);
    PathAround(dirs, last, j);
    PassableIsShort(dirs[..j]);
    SlashesOfDirs(dirs[..j]);
    SlashBehindName(PathText(dirs, last), front, d, rest);
    assert dirs[..j + 1] == dirs[..j] + [d] && [d][1..] == [];
    RenderSplits(dirs[..j], [d]);
  }

  /** A path around one of its directories. */
  lemma PathAround(dirs: seq<string>, last: string, j: nat)
    requires j < |dirs|
    ensures PathText(dirs, last) == RenderDirs(dirs[..j]) + (("/" + dirs[j]) + (RenderDirs(dirs[j + 1..]) + ("/" + last)))
    ensures var rest := RenderDirs(dirs[j + 1..]) + ("/" + last);
      rest != [] && rest[0] == '/'
  {
    assert dirs == dirs[..j] + dirs[j..];
    RenderSplits(dirs[..j], dirs[j..]);
    assert dirs[j..][1..] == dirs[j + 1..];
  }

  // ------------------------------------------------------------------ the outcome for every path

  /**
   What loading a path comes to, for directory names of any length and number and a file name with a dot.  The
   first name that is not passable ends the walk; then the directories before it have been loaded.
   */
  function PathResult(dirs: seq<string>, base: string, ext: string, levels: nat): Walked {
    var j := FirstImpassable(dirs);
    if levels >= FS_N_BUFFERS then Walked([], Panic)
    else if j < |dirs| then
      Walked(DirLoads(dirs[..j], 0, RootDir),
             if |dirs[j]| >= 13 && |RenderDirs(dirs[..j + 1])| >= 2000 then Failed else Panic)
    else if 1 <= |base| <= 8 then Walked(Expected(dirs, base, ext, 0, RootDir), Loaded)
    else Walked(DirLoads(dirs, 0, RootDir), if |base| >= 12 then Failed else Panic)
  }

  ghost predicate IsFilePath(m: seq<char>, dirs: seq<string>, base: string, ext: string, more: string, junk: seq<char>) {
    && m == RenderDirs(dirs) + LastLevel(base, ext, more + ([NUL] + junk))
    && Plain(dirs) && Unbroken(base) && NulFree(base)
    && |ext| <= 3 && NulFree(ext) && SlashFree(ext)
    && NulFree(more) && SlashFree(more) && (|ext| < 3 ==> more == [])
  }

  /** The memory of a path holds its text, and the levels counted are those of the text. */
  lemma PathMemory(m: seq<char>, dirs: seq<string>, base: string, ext: string, more: string, junk: seq<char>, last: string)
    requires IsFilePath(m, dirs, base, ext, more, junk) && last == base + ("." + (ext + more))
    ensures NulFree(last) && SlashFree(last)
    ensures m == PathText(dirs, last) + ([NUL] + junk)
    ensures Terminated(m, 0) && Text(m, 0) == PathText(dirs, last)
    ensures Counted(m) == Window(PathText(dirs, last)) && m[0] == '/'
  {
    LastIsPlain(base, ext, more);
    Regroup(RenderDirs(dirs), base, ext, more, junk);
    assert (RenderDirs(dirs) + "/") + last == PathText(dirs, last);
    SlashesOfDirs(dirs);
    TextOfPath(PathText(dirs, last), junk);
    StartsWithSlash(m, dirs, base, ext, more + ([NUL] + junk));
  }

  /** Without an address, a buffer or a slash in front it panics at once, whatever else. */
  lemma ArgumentsRefused(m: seq<char>, address: nat, size: nat, ok: Load -> bool)
    requires Terminated(m, 0) && (address == 0 || size == 0 || m[0] != '/')
    ensures LoadPath(m, address, size, ok) == Walked([], Panic)
  {
  }

  /** Past its argument checks the routine is the walk from the root directory. */
  lemma LoadPathIsWalk(m: seq<char>, text: string, n: nat, address: nat, size: nat, ok: Load -> bool)
    requires Terminated(m, 0) && Text(m, 0) == text && text != [] && text[0] == '/'
    requires n == Slashes(Window(text)) && 0 < n < FS_N_BUFFERS && address > 0 && size > 0
    ensures LoadPath(m, address, size, ok) == Walk(m, 0, n, RootDir, ok)
  {
  }

  /**
   A path of at most three passable directories is loaded by exactly the expected loads, if only those
   succeed.  Extensions longer than three characters are cut.
   */
  lemma PathIsLoaded(m: seq<char>, dirs: seq<string>, base: string, ext: string, more: string, junk: seq<char>,
                     address: nat, size: nat, ok: Load -> bool)
    requires IsFilePath(m, dirs, base, ext, more, junk)
    requires |dirs| < FS_N_BUFFERS - 1 && Passable(dirs) && 1 <= |base| <= 8
    requires address > 0 && size > 0
    requires var want := Expected(dirs, base, ext, 0, RootDir);
      forall k :: 0 <= k < |want| ==> ok(want[k])
    ensures Terminated(m, 0)
    ensures LoadPath(m, address, size, ok) == Walked(Expected(dirs, base, ext, 0, RootDir), Loaded)
  {
    var last := base + ("." + (ext + more));
    PathMemory(m, dirs, base, ext, more, junk, last);
    LevelsUpTo(dirs, last, |dirs|);
    LoadPathIsWalk(m, PathText(dirs, last), |dirs| + 1, address, size, ok);
    WalkFollowsPath(m, dirs, base, ext, more + ([NUL] + junk), 0, |dirs| + 1, RootDir, ok);
  }

  /** For instance: the file behind a twelve-character directory is looked for in the root directory. */
  lemma TwelveCharacterDirectoryIsSkipped(m: seq<char>, d: string, base: string, ext: string, ok: Load -> bool)
    requires IsFilePath(m, [d], base, ext, [], []) && |d| == 12 && 1 <= |base| <= 8
    requires ok(Load(RootDir, FileName(base, ext), Caller))
    ensures Terminated(m, 0)
    ensures LoadPath(m, 1, 1, ok) == Walked([Load(RootDir, FileName(base, ext), Caller)], Loaded)
  {
    assert [d][1..] == [] && Unbroken([d][0]);
    assert Expected([d], base, ext, 0, RootDir) == [Load(RootDir, FileName(base, ext), Caller)];
    PathIsLoaded(m, [d], base, ext, [], [], 1, 1, ok);
  }

  /** The whole result, for every path with a dot in its last name. */
  lemma PathOutcome(m: seq<char>, dirs: seq<string>, base: string, ext: string, more: string, junk: seq<char>,
                    address: nat, size: nat, ok: Load -> bool)
    requires IsFilePath(m, dirs, base, ext, more, junk)
    requires address > 0 && size > 0 && AllSucceed(ok)
    ensures Terminated(m, 0)
    ensures LoadPath(m, address, size, ok) == PathResult(dirs, base, ext, Slashes(Counted(m)))
  {
    var last := base + ("." + (ext + more));
    PathMemory(m, dirs, base, ext, more, junk, last);
    var n, j := Slashes(Counted(m)), FirstImpassable(dirs);
    LevelsUpTo(dirs, last, if j < FS_N_BUFFERS then j else FS_N_BUFFERS - 1);
    if n < FS_N_BUFFERS {
      LoadPathIsWalk(m, PathText(dirs, last), n, address, size, ok);
      WalkOfPath(m, dirs, base, ext, more, junk, last, j, n, ok);
    }
  }

  /** The walk, when the levels counted are not too many. */
  lemma WalkOfPath(m: seq<char>, dirs: seq<string>, base: string, ext: string, more: string, junk: seq<char>, last: string,
                   j: nat, n: nat, ok: Load -> bool)
    requires IsFilePath(m, dirs, base, ext, more, junk) && last == base + ("." + (ext + more)) && AllSucceed(ok)
    requires NulFree(last) && SlashFree(last) && m == PathText(dirs, last) + ([NUL] + junk)
    requires n == Slashes(Window(PathText(dirs, last))) && j + 1 <= n <= |dirs| + 1 && n < FS_N_BUFFERS
    requires j == FirstImpassable(dirs)
    ensures Walk(m, 0, n, RootDir, ok) == PathResult(dirs, base, ext, n)
  {
    if j < |dirs| {
      LevelsBehind(dirs, last, j);
      WalkToImpassable(m, dirs, last, junk, j, n, ok);
    } else {
      WalkToFile(m, dirs, base, ext, more + ([NUL] + junk), n, ok);
    }
  }

  lemma WalkToImpassable(m: seq<char>, dirs: seq<string>, last: string, junk: seq<char>, j: nat, n: nat, ok: Load -> bool)
    requires m == PathText(dirs, last) + ([NUL] + junk) && Plain(dirs) && AllSucceed(ok)
    requires j < |dirs| && j < n && !PassableLength(dirs[j]) && forall k :: 0 <= k < j ==> PassableLength(dirs[k])
    ensures Walk(m, 0, n, RootDir, ok) ==
      Walked(DirLoads(dirs[..j], 0, RootDir), if |dirs[j]| >= 13 && n == j + 1 then Failed else Panic)
  {
    PathAround(dirs, last, j);
    var p' := (RenderDirs(dirs[j + 1..]) + ("/" + last)) + ([NUL] + junk);
    var rest := "/" + (dirs[j] + p');
    assert m == RenderDirs(dirs[..j]) + rest;
    var src := Reached(dirs[..j], 0, RootDir);
    ImpassableStops(rest, dirs[j], p', j, n, src, ok);
    WalkThrough(m, dirs[..j], rest, 0, n, RootDir, ok, j, src, Walk(rest, j, n, src, ok));
  }

  lemma WalkToFile(m: seq<char>, dirs: seq<string>, base: string, ext: string, tail: seq<char>, n: nat, ok: Load -> bool)
    requires m == RenderDirs(dirs) + LastLevel(base, ext, tail) && n == |dirs| + 1 && AllSucceed(ok)
    requires Passable(dirs) && Unbroken(base) && |ext| <= 3 && NulFree(ext)
    requires |ext| < 3 ==> |tail| > 0 && tail[0] == NUL
    ensures Walk(m, 0, n, RootDir, ok) ==
      if 1 <= |base| <= 8 then Walked(Expected(dirs, base, ext, 0, RootDir), Loaded)
      else Walked(DirLoads(dirs, 0, RootDir), if |base| >= 12 then Failed else Panic)
  {
    var src, rest := Reached(dirs, 0, RootDir), LastLevel(base, ext, tail);
    var w := Walk(rest, |dirs|, n, src, ok);
    FileNameOutcome(base, ext, tail, |dirs|, n, src, ok, w);
    WalkThrough(m, dirs, rest, 0, n, RootDir, ok, |dirs|, src, w);
    ExpectedSplits(dirs, base, ext, 0, RootDir);
  }

  /**
   A path whose loads all succeed is loaded if and only if there are at most three directories, each with a name of one
   to ten or of exactly twelve characters, and the base of the file name has one to eight.
   */
  lemma LoadedIff(m: seq<char>, dirs: seq<string>, base: string, ext: string, more: string, junk: seq<char>,
                  address: nat, size: nat, ok: Load -> bool)
    requires IsFilePath(m, dirs, base, ext, more, junk)
    requires address > 0 && size > 0 && AllSucceed(ok)
    ensures Terminated(m, 0)
    ensures LoadPath(m, address, size, ok).outcome == Loaded <==>
      |dirs| <= 3 && (forall k :: 0 <= k < |dirs| ==> 1 <= |dirs[k]| <= 10 || |dirs[k]| == 12) && 1 <= |base| <= 8
  {
    PathOutcome(m, dirs, base, ext, more, junk, address, size, ok);
    var last, j := base + ("." + (ext + more)), FirstImpassable(dirs);
    PathMemory(m, dirs, base, ext, more, junk, last);
    LevelsUpTo(dirs, last, if j < FS_N_BUFFERS then j else FS_N_BUFFERS - 1);
  }

  /** A field that starts with a text and is blank behind it. */
  ghost predicate Padded(field: string, text: string) {
    text <= field && forall k :: |text| <= k < |field| ==> field[k] == ' '
  }

  /** An eleven-character request for a directory, or for a file with its base in eight and its extension in three. */
  ghost predicate AsksForDirectory(name: string, d: string) {
    |name| == 11 && Padded(name, d)
  }

  ghost predicate AsksForFile(name: string, base: string, ext: string) {
    |name| == 11 && Padded(name[..8], base) && Padded(name[8..], ext)
  }

  lemma DirNameAsks(d: string)
    requires |d| <= 11
    ensures AsksForDirectory(DirName(d), d)
  {
  }

  lemma FileNameAsks(base: string, ext: string)
    requires |base| <= 8 && |ext| <= 3
    ensures AsksForFile(FileName(base, ext), base, ext)
  {
    assert FileName(base, ext)[..8] == base + Spaces(8 - |base|);
    assert FileName(base, ext)[8..] == ext + Spaces(3 - |ext|);
  }

  /** The names that are loaded as directories: twelve characters are passed over. */
  function LoadedNames(dirs: seq<string>): seq<string> {
    if dirs == [] then []
    else if |dirs[0]| == 12 then LoadedNames(dirs[1..])
    else [dirs[0]] + LoadedNames(dirs[1..])
  }

  /** The k-th directory load asks for the k-th of them. */
  ghost predicate AskInOrder(loads: seq<Load>, names: seq<string>) {
    && |loads| == |names|
    && (forall k :: 0 <= k < |loads| ==> loads[k].dst != Caller && AsksForDirectory(loads[k].name, names[k]))
  }

  lemma {:induction false} DirLoadsAsk(dirs: seq<string>, l: nat, src: Place)
    requires forall k :: 0 <= k < |dirs| ==> PassableLength(dirs[k])
    ensures AskInOrder(DirLoads(dirs, l, src), LoadedNames(dirs))
    decreases |dirs|
  {
    if dirs != [] {
      var d := dirs[0];
      DirLoadsAsk(dirs[1..], l + 1, if |d| == 12 then src else Buffer(l));
      if |d| != 12 {
        DirNameAsks(d);
        AskOneMore(Load(src, DirName(d), Buffer(l)), d, DirLoads(dirs[1..], l + 1, Buffer(l)), LoadedNames(dirs[1..]));
      }
    }
  }

  lemma AskOneMore(first: Load, d: string, loads: seq<Load>, names: seq<string>)
    requires first.dst != Caller && AsksForDirectory(first.name, d) && AskInOrder(loads, names)
    ensures AskInOrder([first] + loads, [d] + names)
  {
    var all, ds := [first] + loads, [d] + names;
    forall k | 0 <= k < |all| ensures all[k].dst != Caller && AsksForDirectory(all[k].name, ds[k]) {
      assert k > 0 ==> all[k] == loads[k - 1] && ds[k] == names[k - 1];
    }
  }

  lemma {:induction false} LoadedNamesOfFront(dirs: seq<string>, j: nat)
    requires j <= |dirs|
    ensures LoadedNames(dirs[..j]) <= LoadedNames(dirs)
    decreases |dirs|
  {
    if j > 0 {
      assert dirs[..j][1..] == dirs[1..][..j - 1];
      LoadedNamesOfFront(dirs[1..], j - 1);
    }
  }

  /** What the loads of a path ask for: its directory names in order, each blank to eleven, and last the file. */
  ghost predicate AsksAlong(log: seq<Load>, dirs: seq<string>, base: string, ext: string) {
    forall k :: 0 <= k < |log| ==>
      if log[k].dst == Caller then k == |log| - 1 && AsksForFile(log[k].name, base, ext)
      else k < |LoadedNames(dirs)| && AsksForDirectory(log[k].name, LoadedNames(dirs)[k])
  }

  /** Whatever comes of the walk, every load asks the driver for the right eleven characters. */
  lemma EveryLoadAsks(m: seq<char>, dirs: seq<string>, base: string, ext: string, more: string, junk: seq<char>,
                      address: nat, size: nat, ok: Load -> bool, w: Walked)
    requires IsFilePath(m, dirs, base, ext, more, junk)
    requires address > 0 && size > 0 && AllSucceed(ok)
    requires Terminated(m, 0) && w == LoadPath(m, address, size, ok)
    ensures AsksAlong(w.log, dirs, base, ext)
  {
    PathOutcome(m, dirs, base, ext, more, junk, address, size, ok);
    var j := FirstImpassable(dirs);
    DirLoadsAsk(dirs[..j], 0, RootDir);
    LoadedNamesOfFront(dirs, j);
    if j == |dirs| {
      assert dirs[..j] == dirs;
      ExpectedSplits(dirs, base, ext, 0, RootDir);
    }
    if 1 <= |base| <= 8 {
      FileNameAsks(base, ext);
    }
  }

  /** The directories in order, each in the buffer of its level, searched from the root down, and then the file. */
  ghost predicate OnePerComponent(log: seq<Load>, dirs: seq<string>, base: string, ext: string) {
    && |log| == |dirs| + 1
    && log[|dirs|].src == (if |dirs| == 0 then RootDir else Buffer(|dirs| - 1))
    && log[|dirs|].dst == Caller && AsksForFile(log[|dirs|].name, base, ext)
    && (forall k :: 0 <= k < |dirs| ==>
          && log[k].src == (if k == 0 then RootDir else Buffer(k - 1))
          && log[k].dst == Buffer(k) && AsksForDirectory(log[k].name, dirs[k]))
  }

  /**
   The walk succeeds with one load per component exactly when there are at most three directories, each with a
   name of one to ten characters, and the base has one to eight; it then makes exactly the loads it should.
   */
  lemma OneLoadPerComponentIff(m: seq<char>, dirs: seq<string>, base: string, ext: string, more: string, junk: seq<char>,
                               address: nat, size: nat, ok: Load -> bool, w: Walked)
    requires IsFilePath(m, dirs, base, ext, more, junk)
    requires address > 0 && size > 0 && AllSucceed(ok)
    requires Terminated(m, 0) && w == LoadPath(m, address, size, ok)
    ensures w.outcome == Loaded && |w.log| == |dirs| + 1 <==>
      |dirs| <= 3 && (forall k :: 0 <= k < |dirs| ==> 1 <= |dirs[k]| <= 10) && 1 <= |base| <= 8
    ensures w.outcome == Loaded && |w.log| == |dirs| + 1 ==> OnePerComponent(w.log, dirs, base, ext)
  {
    LoadedIff(m, dirs, base, ext, more, junk, address, size, ok);
    PathOutcome(m, dirs, base, ext, more, junk, address, size, ok);
    if w.outcome == Loaded {
      ExpectedLength(dirs, base, ext, 0, RootDir);
      if |w.log| == |dirs| + 1 {
        ExpectedIsOnePerComponent(dirs, base, ext);
      }
    }
  }

  lemma ExpectedIsOnePerComponent(dirs: seq<string>, base: string, ext: string)
    requires (forall k :: 0 <= k < |dirs| ==> |dirs[k]| <= 10) && |base| <= 8 && |ext| <= 3
    ensures OnePerComponent(Expected(dirs, base, ext, 0, RootDir), dirs, base, ext)
  {
    var want := Expected(dirs, base, ext, 0, RootDir);
    ExpectedAt(dirs, base, ext, 0, RootDir, |dirs|);
    FileNameAsks(base, ext);
    forall k: nat | k < |dirs| ensures want[k] == NthLoad(dirs, base, ext, 0, RootDir, k) && AsksForDirectory(want[k].name, dirs[k]) {
      ExpectedAt(dirs, base, ext, 0, RootDir, k);
      DirNameAsks(dirs[k]);
    }
  }

  // ------------------------------------------------------------------ reading behind the terminator

  /** Some dot is not followed by a slash: the last name has one. */
  ghost predicate DotLast(t: string) {
    exists d :: 0 <= d < |t| && t[d] == '.' && SlashFree(t[d..])
  }

  /** A text that, if it starts a level, has a dot in its last name. */
  ghost predicate Bounded(t: string) {
    NulFree(t) && (t != [] && t[0] == '/' ==> DotLast(t))
  }

  lemma {:induction false} ScanIgnoresJunk(t: string, d: nat, junk: seq<char>, other: seq<char>, i: nat)
    requires d < |t| && t[d] == '.' && i <= d && i <= 12
    ensures Scan(t + junk, i) == Scan(t + other, i)
    ensures var s := Scan(t + junk, i);
      !s.PastEnd? && (s.Full? ==> 12 <= d) && (s.Dot? || s.Slash? ==> s.i <= d && t[s.i] == (t + junk)[s.i])
    decreases d - i
  {
    if i < d && i < 12 && t[i] != '.' && t[i] != '/' {
      ScanIgnoresJunk(t, d, junk, other, i + 1);
    }
  }

  lemma {:induction false} ExtIgnoresJunk(t: string, junk: seq<char>, other: seq<char>, k: nat)
    requires NulFree(t)
    ensures ExtChars(t + ([NUL] + junk), k) == ExtChars(t + ([NUL] + other), k)
    decreases k
  {
    if t != [] && k > 0 {
      assert (t + ([NUL] + junk))[1..] == t[1..] + ([NUL] + junk);
      assert (t + ([NUL] + other))[1..] == t[1..] + ([NUL] + other);
      ExtIgnoresJunk(t[1..], junk, other, k - 1);
    }
  }

  /** What is left of a text behind its first k characters. */
  lemma CutText(t: string, junk: seq<char>, k: nat)
    requires k <= |t|
    ensures (t + junk)[k..] == t[k..] + junk && (t + junk)[..k] == t[..k]
  {
  }

  /** Where a level goes on, behind k characters of a text, if it is not at its dot. */
  lemma LevelGoesOn(t: string, junk: seq<char>, l: nat, n: nat, src: Place, ok: Load -> bool, stop: Stop, k: nat)
    requires t != [] && t[0] == '/' && stop == Scan(t[1..] + junk, 0) && (stop.Slash? || stop.Full?)
    requires k == (if stop.Full? then 12 else stop.i) && k < |t[1..]|
    ensures var a := OneLevel(t + junk, l, n, src, ok);
      var load := Load(src, DirName(t[1..][..k]), Buffer(l));
      a == if stop.Full? then Goes([], t[1..][k..] + junk, src)
           else if k == 0 || k >= 11 then Ends(Walked([], Panic))
           else if ok(load) then Goes([load], t[1..][k..] + junk, Buffer(l)) else Ends(Walked([load], Panic))
  {
    CutText(t, junk, 1);
    CutText(t[1..], junk, k);
  }

  /** A level whose text has its dot does not look behind the text. */
  lemma LevelIgnoresJunk(t: string, junk: seq<char>, other: seq<char>, l: nat, n: nat, src: Place, ok: Load -> bool)
    returns (rest: string)
    requires Bounded(t) && t != [] && t[0] == '/'
    ensures Bounded(rest)
    ensures var a, b := OneLevel(t + ([NUL] + junk), l, n, src, ok), OneLevel(t + ([NUL] + other), l, n, src, ok);
      || (a.Ends? && b == a)
      || (a.Goes? && a.p == rest + ([NUL] + junk) && b == a.(p := rest + ([NUL] + other)))
  {
    var u := t[1..];
    var d :| 0 <= d < |t| && t[d] == '.' && SlashFree(t[d..]);
    ScanIgnoresJunk(u, d - 1, [NUL] + junk, [NUL] + other, 0);
    var stop := Scan(u + ([NUL] + junk), 0);
    if stop.Dot? {
      rest := [];
      CutText(t, [NUL] + junk, 1);
      CutText(t, [NUL] + other, 1);
      FileLevelIgnoresJunk(u, stop.i, junk, other, l, n, src, ok);
    } else {
      var k := if stop.Full? then 12 else stop.i;
      rest := u[k..];
      DotStays(t, d, 1 + k, rest);
      LevelGoesOn(t, [NUL] + junk, l, n, src, ok, stop, k);
      LevelGoesOn(t, [NUL] + other, l, n, src, ok, stop, k);
    }
  }

  lemma DotStays(t: string, d: nat, k: nat, rest: string)
    requires NulFree(t) && k <= d < |t| && t[d] == '.' && SlashFree(t[d..]) && rest == t[k..]
    ensures Bounded(rest)
  {
    assert rest[d - k] == '.' && rest[d - k..] == t[d..];
  }

  lemma FileLevelIgnoresJunk(u: string, i: nat, junk: seq<char>, other: seq<char>, l: nat, n: nat, src: Place, ok: Load -> bool)
    requires i < |u| && NulFree(u)
    ensures FileLevel(u + ([NUL] + junk), i, l, n, src, ok) == FileLevel(u + ([NUL] + other), i, l, n, src, ok)
  {
    CutText(u, [NUL] + junk, i);
    CutText(u, [NUL] + other, i);
    CutText(u, [NUL] + junk, i + 1);
    CutText(u, [NUL] + other, i + 1);
    ExtIgnoresJunk(u[i + 1..], junk, other, 3);
  }

  /** From a text with its dot on, the walk does not depend on what is in memory behind it. */
  lemma {:induction false} WalkIgnoresJunk(t: string, junk: seq<char>, other: seq<char>, l: nat, n: nat, src: Place, ok: Load -> bool)
    requires Bounded(t)
    ensures Walk(t + ([NUL] + junk), l, n, src, ok) == Walk(t + ([NUL] + other), l, n, src, ok)
    decreases n - l
  {
    if l < n && t != [] && t[0] == '/' {
      var rest := LevelIgnoresJunk(t, junk, other, l, n, src, ok);
      WalkUnfolds(t + ([NUL] + junk), l, n, src, ok);
      WalkUnfolds(t + ([NUL] + other), l, n, src, ok);
      var a := OneLevel(t + ([NUL] + junk), l, n, src, ok);
      if a.Goes? {
        WalkIgnoresJunk(rest, junk, other, l + 1, n, a.src, ok);
      }
    }
  }

  /** Loading a string that memory continues with junk. */
  function LoadText(text: string, junk: seq<char>, address: nat, size: nat, ok: Load -> bool): Walked
    requires NulFree(text)
  {
    TextOfPath(text, junk);
    LoadPath(text + ([NUL] + junk), address, size, ok)
  }

  /** Whatever the string, loads and failures: with a dot in its last name only the string matters. */
  lemma DottedStringSuffices(text: string, junk: seq<char>, other: seq<char>, address: nat, size: nat, ok: Load -> bool)
    requires NulFree(text) && DotLast(text)
    ensures LoadText(text, junk, address, size, ok) == LoadText(text, other, address, size, ok)
  {
    TextOfPath(text, junk);
    TextOfPath(text, other);
    WalkIgnoresJunk(text, junk, other, 0, Slashes(Window(text)), RootDir, ok);
  }

  ghost predicate StringSuffices(text: string, address: nat, size: nat, ok: Load -> bool)
    requires NulFree(text)
  {
    forall junk, other :: LoadText(text, junk, address, size, ok) == LoadText(text, other, address, size, ok)
  }

  /** The walk up to a last name without a dot, which is scanned with what follows it. */
  lemma WalkToUndotted(dirs: seq<string>, last: string, junk: seq<char>, address: nat, size: nat, ok: Load -> bool,
                       at: Place, w: Walked)
    requires Plain(dirs) && Passable(dirs) && |dirs| < FS_N_BUFFERS - 1 && NulFree(last) && SlashFree(last)
    requires address > 0 && size > 0 && AllSucceed(ok) && NulFree(PathText(dirs, last))
    requires at == Reached(dirs, 0, RootDir) && w == Walk("/" + (last + ([NUL] + junk)), |dirs|, |dirs| + 1, at, ok)
    ensures LoadText(PathText(dirs, last), junk, address, size, ok) == Walked(DirLoads(dirs, 0, RootDir) + w.log, w.outcome)
  {
    var text, rest := PathText(dirs, last), "/" + (last + ([NUL] + junk));
    LoadTextIsWalk(dirs, last, junk, address, size, ok);
    TextThenJunk(RenderDirs(dirs), last, [NUL] + junk);
    WalkThrough(text + ([NUL] + junk), dirs, rest, 0, |dirs| + 1, RootDir, ok, |dirs|, at, w);
  }

  lemma TextThenJunk(front: string, last: string, junk: seq<char>)
    ensures (front + ("/" + last)) + junk == front + ("/" + (last + junk))
  {
  }

  lemma LoadTextIsWalk(dirs: seq<string>, last: string, junk: seq<char>, address: nat, size: nat, ok: Load -> bool)
    requires Plain(dirs) && Passable(dirs) && |dirs| < FS_N_BUFFERS - 1 && SlashFree(last)
    requires address > 0 && size > 0 && NulFree(PathText(dirs, last))
    ensures LoadText(PathText(dirs, last), junk, address, size, ok) ==
      Walk(PathText(dirs, last) + ([NUL] + junk), 0, |dirs| + 1, RootDir, ok)
  {
    var text := PathText(dirs, last);
    TextOfPath(text, junk);
    LevelsUpTo(dirs, last, |dirs|);
    StartsWithLevel(dirs, "/" + last);
    LoadPathIsWalk(text + ([NUL] + junk), text, |dirs| + 1, address, size, ok);
  }

  lemma StartsWithLevel(dirs: seq<string>, rest: seq<char>)
    requires rest != [] && rest[0] == '/'
    ensures RenderDirs(dirs) + rest != [] && (RenderDirs(dirs) + rest)[0] == '/'
  {
  }

  lemma {:induction false} ScanRunsOff(q: seq<char>, i: nat)
    requires Unbroken(q) && |q| < 12 && i <= |q|
    ensures Scan(q, i) == PastEnd
    decreases |q| - i
  {
    if i < |q| {
      ScanRunsOff(q, i + 1);
    }
  }

  /** A last name without a dot: the terminator is scanned like any character, and so is what follows it. */
  lemma UndottedLevel(last: string, junk: seq<char>, l: nat, src: Place, ok: Load -> bool, w: Walked)
    requires Unbroken(last) && AllSucceed(ok) && w == Walk("/" + (last + ([NUL] + junk)), l, l + 1, src, ok)
    ensures |last| >= 11 ==> w == Walked([], Failed)
    ensures |last| <= 10 && junk == [] ==> w == Walked([], ReadPastEnd)
    ensures |last| <= 10 && junk == ['.', NUL] ==> w.outcome == if |last| <= 7 then Loaded else Panic
  {
    var p, q := "/" + (last + ([NUL] + junk)), (last + [NUL]) + junk;
    assert p[1..] == q;
    WalkUnfolds(p, l, l + 1, src, ok);
    if |last| >= 11 {
      ScanStopsAfter(q, (last + [NUL])[..12], 0);
    } else if junk == [] {
      ScanRunsOff(q, 0);
    } else if junk == ['.', NUL] {
      ScanStopsAfter(q, last + [NUL], 0);
      assert q[|last| + 2..] == [NUL];
    }
  }

  /**
   When the outcome depends on the string alone: along passable directories whose loads succeed, exactly when the
   last name has a dot or at least eleven characters.  A shorter one without a dot is read on behind its terminator.
   */
  lemma StringSufficesIff(dirs: seq<string>, last: string, address: nat, size: nat, ok: Load -> bool)
    requires Plain(dirs) && Passable(dirs) && |dirs| < FS_N_BUFFERS - 1 && NulFree(last) && SlashFree(last)
    requires address > 0 && size > 0 && AllSucceed(ok)
    ensures NulFree(PathText(dirs, last))
    ensures StringSuffices(PathText(dirs, last), address, size, ok) <==> '.' in last || |last| >= 11
  {
    SlashesOfDirs(dirs);
    var text := PathText(dirs, last);
    if '.' in last {
      DotInLast(dirs, last);
      forall junk, other ensures LoadText(text, junk, address, size, ok) == LoadText(text, other, address, size, ok) {
        DottedStringSuffices(text, junk, other, address, size, ok);
      }
    } else {
      forall junk
        ensures |last| >= 11 ==> LoadText(text, junk, address, size, ok) == Walked(DirLoads(dirs, 0, RootDir), Failed)
      {
        UndottedOutcome(dirs, last, junk, address, size, ok, LoadText(text, junk, address, size, ok));
      }
      UndottedOutcome(dirs, last, [], address, size, ok, LoadText(text, [], address, size, ok));
      UndottedOutcome(dirs, last, ['.', NUL], address, size, ok, LoadText(text, ['.', NUL], address, size, ok));
    }
  }

  lemma UndottedOutcome(dirs: seq<string>, last: string, junk: seq<char>, address: nat, size: nat, ok: Load -> bool, w: Walked)
    requires Plain(dirs) && Passable(dirs) && |dirs| < FS_N_BUFFERS - 1 && NulFree(last) && Unbroken(last)
    requires address > 0 && size > 0 && AllSucceed(ok) && NulFree(PathText(dirs, last))
    requires w == LoadText(PathText(dirs, last), junk, address, size, ok)
    ensures |last| >= 11 ==> w == Walked(DirLoads(dirs, 0, RootDir), Failed)
    ensures |last| <= 10 && junk == [] ==> w.outcome == ReadPastEnd
    ensures |last| <= 10 && junk == ['.', NUL] ==> w.outcome == if |last| <= 7 then Loaded else Panic
  {
    var src := Reached(dirs, 0, RootDir);
    var end := Walk("/" + (last + ([NUL] + junk)), |dirs|, |dirs| + 1, src, ok);
    UndottedLevel(last, junk, |dirs|, src, ok, end);
    WalkToUndotted(dirs, last, junk, address, size, ok, src, end);
  }

  lemma DotInLast(dirs: seq<string>, last: string)
    requires '.' in last && SlashFree(last)
    ensures DotLast(PathText(dirs, last))
  {
    var i :| 0 <= i < |last| && last[i] == '.';
    var text, d := PathText(dirs, last), |RenderDirs(dirs)| + 1 + i;
    assert text[d] == '.' && text[d..] == last[i..];
  }

  // ------------------------------------------------------------------ the routine

  /** The scan of one level, copying into the name buffer as it goes. */
  method ScanLevel(m: seq<char>, pos: nat, name: array<char>) returns (stop: Stop)
    requires pos <= |m| && name.Length == 12
    modifies name
    ensures stop == Scan(m[pos..], 0)
    ensures stop.Dot? || stop.Slash? ==> pos + stop.i < |m| && name[..stop.i] == m[pos..pos + stop.i]
  {
    var i := 0;
    while i < 12
      invariant 0 <= i <= 12 && pos + i <= |m|
      invariant name[..i] == m[pos..pos + i]
      invariant Scan(m[pos..], 0) == Scan(m[pos..], i)
    {
      if pos + i >= |m| {
        return PastEnd;
      }
      name[i] := m[pos + i];
      if m[pos + i] == '.' {
        return Dot(i);
      }
      if m[pos + i] == '/' {
        return Slash(i);
      }
      assert name[..i + 1] == name[..i] + [name[i]];
      i := i + 1;
    }
    return Full;
  }

  /** Fill the name buffer with spaces from i up to the given place. */
  method Pad(name: array<char>, from: nat, upto: nat)
    requires from <= upto <= 11 && name.Length == 12
    modifies name
    ensures name[..upto] == old(name[..from]) + Spaces(upto - from)
  {
    var i := from;
    ghost var s := name[..from];
    while i < upto
      invariant from <= i <= upto
      invariant name[..i] == s + Spaces(i - from)
    {
      name[i] := ' ';
      assert Spaces(i + 1 - from) == Spaces(i - from) + [' '];
      assert name[..i + 1] == name[..i] + [' '];
      i := i + 1;
    }
  }

  /** Copy up to three extension characters behind the padded base, then fill with spaces. */
  method AppendExt(m: seq<char>, pos: nat, name: array<char>) returns (inside: bool)
    requires pos <= |m| && name.Length == 12
    modifies name
    ensures inside <==> ExtChars(m[pos..], 3).Some?
    ensures inside ==> var ext := ExtChars(m[pos..], 3).value;
      |ext| <= 3 && name[..11] == old(name[..8]) + ext + Spaces(3 - |ext|)
  {
    var i, p := 8, pos;
    ghost var base := name[..8];
    ghost var ext: string := [];
    assert ExtChars(m[pos..], 3).Some? ==> ext + ExtChars(m[pos..], 3).value == ExtChars(m[pos..], 3).value;
    while i < 11
      invariant 8 <= i <= 11 && pos <= p <= |m| && |ext| == i - 8
      invariant name[..i] == base + ext
      invariant Follows(ExtChars(m[pos..], 3), ext, ExtChars(m[p..], 11 - i))
    {
      if p >= |m| {
        return false;
      }
      if m[p] == NUL {
        break;
      }
      assert m[p..][1..] == m[p + 1..];
      name[i] := m[p];
      assert name[..i + 1] == name[..i] + [m[p]];
      FollowsStep(ExtChars(m[pos..], 3), ext, m[p], ExtChars(m[p + 1..], 11 - i - 1));
      ext := ext + [m[p]];
      i := i + 1;
      p := p + 1;
    }
    assert ext + [] == ext;
    Pad(name, i, 11);
    inside := true;
  }

  /** What was read so far, followed by what is still to be read. */
  ghost predicate Follows(all: Option<string>, done: string, rest: Option<string>) {
    if rest.None? then all.None? else all == Some(done + rest.value)
  }

  lemma FollowsStep(all: Option<string>, done: string, c: char, rest: Option<string>)
    requires Follows(all, done, if rest.None? then None else Some([c] + rest.value))
    ensures Follows(all, done + [c], rest)
  {
    if rest.Some? {
      assert done + ([c] + rest.value) == done + [c] + rest.value;
    }
  }

  method FsLoadPath(m: seq<char>, address: nat, size: nat, ok: Load -> bool)
    returns (log: seq<Load>, outcome: Outcome)
    requires Terminated(m, 0)
    ensures Walked(log, outcome) == LoadPath(m, address, size, ok)
  {
    log := [];
    if m[0] == NUL || address == 0 || size == 0 {
      return log, Panic;
    }
    var n := FsCountPathLevels(m);
    if n <= 0 || n >= FS_N_BUFFERS {
      return log, Panic;
    }
    if m[0] != '/' {
      return log, Panic;
    }
    assert m[0..] == m;
    log, outcome := WalkLevels(m, n, ok, Walk(m[0..], 0, n, RootDir, ok));
  }

  /** The level loop. */
  method WalkLevels(m: seq<char>, n: nat, ok: Load -> bool, ghost want: Walked)
    returns (log: seq<Load>, outcome: Outcome)
    requires want == Walk(m[0..], 0, n, RootDir, ok)
    ensures Walked(log, outcome) == want
  {
    log := [];
    var pos, l, src := 0, 0, RootDir;
    ghost var rest := want;
    while l < n
      invariant 0 <= l <= n && 0 <= pos <= |m|
      invariant rest == Walk(m[pos..], l, n, src, ok)
      invariant Continues(want.Parts(), log, rest.Parts())
    {
      WalkStops(m[pos..], l, n, src, ok, rest);
      if pos >= |m| {
        return log, ReadPastEnd;
      }
      if m[pos] != '/' {
        return log, Panic;
      }
      var more, end, pos', src' := LoadLevel(m, pos, l, n, src, ok);
      rest := RoundContinues(want, log, m[pos..], l, n, src, ok, rest, more, end, m[pos'..], src');
      log := log + more;
      if end.Some? {
        return log, end.value;
      }
      pos, src, l := pos', src', l + 1;
    }
    WalkStops(m[pos..], l, n, src, ok, rest);
    return log, Failed;
  }

  /** Where a walk ends without a level. */
  lemma WalkStops(p: seq<char>, l: nat, n: nat, src: Place, ok: Load -> bool, w: Walked)
    requires w == Walk(p, l, n, src, ok)
    ensures l >= n ==> w == Walked([], Failed)
    ensures l < n && p == [] ==> w == Walked([], ReadPastEnd)
    ensures l < n && p != [] && p[0] != '/' ==> w == Walked([], Panic)
  {
  }

  /** What is left of the walk after one round. */
  lemma RoundContinues(want: Walked, log: seq<Load>, p: seq<char>, l: nat, n: nat, src: Place, ok: Load -> bool, w: Walked,
                       more: seq<Load>, end: Option<Outcome>, p': seq<char>, src': Place) returns (rest: Walked)
    requires l < n && p != [] && p[0] == '/' && w == Walk(p, l, n, src, ok) && Continues(want.Parts(), log, w.Parts())
    requires OneLevel(p, l, n, src, ok) == if end.Some? then Ends(Walked(more, end.value)) else Goes(more, p', src')
    ensures end.Some? ==> want == Walked(log + more, end.value)
    ensures end.None? ==> rest == Walk(p', l + 1, n, src', ok) && Continues(want.Parts(), log + more, rest.Parts())
  {
    WalkUnfolds(p, l, n, src, ok);
    rest := w;
    if end.None? {
      rest := Walk(p', l + 1, n, src', ok);
      ContinuesStep(want.Parts(), log, more, rest.Parts());
    }
  }

  lemma WalkUnfolds(p: seq<char>, l: nat, n: nat, src: Place, ok: Load -> bool)
    requires l < n && p != [] && p[0] == '/'
    ensures var level := OneLevel(p, l, n, src, ok);
      && (level.Ends? ==> Walk(p, l, n, src, ok) == level.w)
      && (level.Goes? ==>
            var rest := Walk(level.p, l + 1, n, level.src, ok);
            Walk(p, l, n, src, ok) == Walked(level.log + rest.log, rest.outcome))
  {
  }

  /** The branch for a name with a dot. */
  method LoadFileLevel(m: seq<char>, pos: nat, i: nat, l: nat, n: nat, src: Place, ok: Load -> bool,
                       nameBuffer: array<char>) returns (log: seq<Load>, outcome: Outcome)
    requires pos + i < |m| && nameBuffer.Length == 12 && i < 12 && nameBuffer[..i] == m[pos..pos + i]
    modifies nameBuffer
    ensures Walked(log, outcome) == FileLevel(m[pos..], i, l, n, src, ok)
  {
    log := [];
    if l != n - 1 || i == 0 || i > 8 {
      return log, Panic;
    }
    Pad(nameBuffer, i, 8);
    assert m[pos..][i + 1..] == m[pos + i + 1..];
    assert m[pos..][..i] == m[pos..pos + i];
    var inside := AppendExt(m, pos + i + 1, nameBuffer);
    if !inside {
      return log, ReadPastEnd;
    }
    var load := Load(src, nameBuffer[..11], Caller);
    log := [load];
    outcome := if ok(load) then Loaded else Panic;
  }

  /** The padded name of a directory level, as a request to the disk driver. */
  method DirectoryLoad(m: seq<char>, pos: nat, i: nat, l: nat, src: Place, nameBuffer: array<char>) returns (load: Load)
    requires pos + i < |m| && nameBuffer.Length == 12 && i < 11 && nameBuffer[..i] == m[pos..pos + i]
    modifies nameBuffer
    ensures load == Load(src, DirName(m[pos..][..i]), Buffer(l))
  {
    assert m[pos..][..i] == m[pos..pos + i];
    Pad(nameBuffer, i, 11);
    load := Load(src, nameBuffer[..11], Buffer(l));
  }

  /** One round of the level loop: the loads it makes, and how it ends or where the next round starts. */
  method LoadLevel(m: seq<char>, pos: nat, l: nat, n: nat, src: Place, ok: Load -> bool)
    returns (log: seq<Load>, end: Option<Outcome>, pos': nat, src': Place)
    requires pos < |m| && m[pos] == '/' && l < n
    ensures pos' <= |m|
    ensures OneLevel(m[pos..], l, n, src, ok) ==
      if end.Some? then Ends(Walked(log, end.value)) else Goes(log, m[pos'..], src')
  {
    log, end, pos', src' := [], None, pos + 1, src;
    var nameBuffer := new char[12];
    assert m[pos..][1..] == m[pos + 1..];
    var stop := ScanLevel(m, pos + 1, nameBuffer);
    match stop
    case PastEnd =>
      end := Some(ReadPastEnd);
    case Full =>
      assert m[pos + 1..][12..] == m[pos + 13..];
      pos' := pos + 13;
    case Dot(i) =>
      var outcome;
      log, outcome := LoadFileLevel(m, pos + 1, i, l, n, src, ok, nameBuffer);
      end := Some(outcome);
    case Slash(i) =>
      assert m[pos + 1..][i..] == m[pos + 1 + i..];
      log, end := LoadDirectory(m, pos + 1, i, l, src, ok, nameBuffer);
      pos', src' := pos + 1 + i, Buffer(l);
  }

  /** The branch for a name that ends in a slash: goes on if the directory was loaded. */
  method LoadDirectory(m: seq<char>, pos: nat, i: nat, l: nat, src: Place, ok: Load -> bool, nameBuffer: array<char>)
    returns (log: seq<Load>, end: Option<Outcome>)
    requires pos + i < |m| && nameBuffer.Length == 12 && i < 12 && nameBuffer[..i] == m[pos..pos + i]
    modifies nameBuffer
    ensures i == 0 || i >= 11 ==> log == [] && end == Some(Panic)
    ensures 0 < i < 11 ==>
      var load := Load(src, DirName(m[pos..][..i]), Buffer(l));
      log == [load] && end == if ok(load) then None else Some(Panic)
  {
    if i == 0 || i >= 8 + 3 {
      return [], Some(Panic);
    }
    var load := DirectoryLoad(m, pos, i, l, src, nameBuffer);
    log := [load];
    end := if ok(load) then None else Some(Panic);
  }
}
