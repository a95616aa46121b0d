/**
 k_strtok_r: each call returns a pointer to the next token of a string and
 overwrites the delimiter behind it, remembering where to go on.

 `Strtok` is one call on the whole memory; `Drain` is the documented way of using it:
 call with the string, then with NULL until NULL comes back.
 */
module Tokenizer {
  import opened CString
  import opened Sequences

  /** The characters of a delimiter string. */
  function Chars(delim: string): set<char> {
    set c | c in delim
  }

  /** A NUL at z stops everything that starts at i. */
  predicate Stops(m: seq<char>, i: nat, z: nat) {
    i <= z < |m| && m[z] == NUL
  }

  /** The string at i ends at z. */
  ghost predicate StringTo(m: seq<char>, i: nat, z: nat) {
    Stops(m, i, z) && forall k :: i <= k < z ==> m[k] != NUL
  }

  /** The first position at or after i that does not hold a delimiter. */
  function Skip(m: seq<char>, i: nat, z: nat, delim: set<char>): (k: nat)
    requires Stops(m, i, z)
    ensures i <= k <= z
    decreases z - i
  {
    if i < z && m[i] in delim then Skip(m, i + 1, z, delim) else i
  }

  /** The first position at or after i that holds a delimiter or a NUL. */
  function Scan(m: seq<char>, i: nat, z: nat, delim: set<char>): (e: nat)
    requires Stops(m, i, z)
    ensures i <= e <= z
    decreases z - i
  {
    if m[i] in delim || m[i] == NUL then i else Scan(m, i + 1, z, delim)
  }

  lemma {:induction false} SkipFacts(m: seq<char>, i: nat, z: nat, delim: set<char>)
    requires Stops(m, i, z) && NUL !in delim
    ensures var k := Skip(m, i, z, delim);
      m[k] !in delim && forall j :: i <= j < k ==> m[j] in delim
    decreases z - i
  {
    if i < z && m[i] in delim {
      SkipFacts(m, i + 1, z, delim);
    }
  }

  lemma {:induction false} ScanFacts(m: seq<char>, i: nat, z: nat, delim: set<char>)
    requires Stops(m, i, z)
    ensures var e := Scan(m, i, z, delim);
      (m[e] in delim || m[e] == NUL) && forall j :: i <= j < e ==> m[j] !in delim && m[j] != NUL
    decreases z - i
  {
    if m[i] !in delim && m[i] != NUL {
      ScanFacts(m, i + 1, z, delim);
    }
  }

  lemma {:induction false} SkipIs(m: seq<char>, i: nat, z: nat, delim: set<char>, k: nat)
    requires Stops(m, i, z) && NUL !in delim && i <= k <= z
    requires m[k] !in delim && forall j :: i <= j < k ==> m[j] in delim
    ensures Skip(m, i, z, delim) == k
    decreases k - i
  {
    if i < k {
      SkipIs(m, i + 1, z, delim, k);
    }
  }

  lemma {:induction false} ScanIs(m: seq<char>, i: nat, z: nat, delim: set<char>, e: nat)
    requires Stops(m, i, z) && i <= e <= z
    requires m[e] in delim || m[e] == NUL
    requires forall j :: i <= j < e ==> m[j] !in delim && m[j] != NUL
    ensures Scan(m, i, z, delim) == e
    decreases e - i
  {
    if i < e {
      ScanIs(m, i + 1, z, delim, e);
    }
  }

  datatype Token = Token(mem: seq<char>, tok: Option<nat>, last: Option<nat>)

  ghost predicate Ready(m: seq<char>, start: Option<nat>, z: nat) {
    start.Some? ==> Stops(m, start.value, z)
  }

  /** One call, from the position given or remembered; z is where the string ends. */
  function Strtok(m: seq<char>, start: Option<nat>, z: nat, delim: set<char>): (t: Token)
    requires Ready(m, start, z)
    ensures |t.mem| == |m|
    ensures t.last.Some? ==> start.Some? && start.value < t.last.value <= z
    ensures t.tok.Some? ==> start.Some?
  {
    if start.None? then Token(m, None, None)
    else
      var k := Skip(m, start.value, z, delim);
      if m[k] == NUL then Token(m, None, None)
      else
        var e := Scan(m, k, z, delim);
        if m[e] == NUL then Token(m, Some(k), None)
        else Token(m[e := NUL], Some(k), Some(e + 1))
  }

  /** k_strtok_r; a missing s means: go on from last. */
  method StrtokR(a: array<char>, s: Option<nat>, delim: string, last: Option<nat>, ghost z: nat)
    returns (tok: Option<nat>, next: Option<nat>)
    requires NUL !in Chars(delim)
    requires Ready(a[..], if s.Some? then s else last, z)
    modifies a
    ensures Token(a[..], tok, next) == Strtok(old(a[..]), if s.Some? then s else last, z, Chars(delim))
  {
    if s.None? && last.None? {
      return None, None;
    }
    var p := if s.Some? then s.value else last.value;
    var token := SkipDelimiters(a, p, delim, z);
    if a[token] == NUL {
      return None, None;
    }
    var end := ScanToken(a, token, delim, z);
    if a[end] == NUL {
      return Some(token), None;
    }
    a[end] := NUL;
    assert a[..] == old(a[..])[end := NUL];
    return Some(token), Some(end + 1);
  }

  method SkipDelimiters(a: array<char>, s: nat, delim: string, ghost z: nat) returns (p: nat)
    requires NUL !in Chars(delim) && Stops(a[..], s, z)
    ensures p == Skip(a[..], s, z, Chars(delim))
  {
    p := s;
    ghost var m := a[..];
    var hit := MatchDelimiter(a[p], delim);
    while hit
      invariant s <= p <= z
      invariant hit <==> m[p] in Chars(delim)
      invariant forall j :: s <= j < p ==> m[j] in Chars(delim)
      decreases z - p
    {
      p := p + 1;
      hit := MatchDelimiter(a[p], delim);
    }
    SkipIs(m, s, z, Chars(delim), p);
  }

  method ScanToken(a: array<char>, s: nat, delim: string, ghost z: nat) returns (p: nat)
    requires Stops(a[..], s, z)
    ensures p == Scan(a[..], s, z, Chars(delim))
  {
    p := s;
    ghost var m := a[..];
    var hit := MatchDelimiter(a[p], delim);
    while !hit && a[p] != NUL
      invariant s <= p <= z
      invariant hit <==> m[p] in Chars(delim)
      invariant forall j :: s <= j < p ==> m[j] !in Chars(delim) && m[j] != NUL
      decreases z - p
    {
      p := p + 1;
      hit := MatchDelimiter(a[p], delim);
    }
    ScanIs(m, s, z, Chars(delim), p);
  }

  /** The inner loop over the delimiter string. */
  method MatchDelimiter(c: char, delim: string) returns (b: bool)
    ensures b <==> c in Chars(delim)
  {
    var i := 0;
    while i < |delim|
      invariant 0 <= i <= |delim|
      invariant c !in delim[..i]
    {
      if c == delim[i] {
        return true;
      }
      i := i + 1;
    }
    assert delim[..i] == delim;
    return false;
  }

  // ------------------------------------------------------------------ maximal runs

  datatype Span = Span(from: nat, to: nat)

  /** [s.from, s.to) is a longest stretch of m[i..z] without delimiters. */
  ghost predicate MaximalRun(m: seq<char>, i: nat, z: nat, delim: set<char>, s: Span)
    requires i <= z <= |m|
  {
    && i <= s.from < s.to <= z
    && (forall j :: s.from <= j < s.to ==> m[j] !in delim)
    && (s.from == i || m[s.from - 1] in delim)
    && (s.to == z || m[s.to] in delim)
  }

  /** The runs of the string from i to z, from left to right. */
  function Runs(m: seq<char>, i: nat, z: nat, delim: set<char>): seq<Span>
    requires Stops(m, i, z)
    decreases z - i
  {
    var k := Skip(m, i, z, delim);
    if m[k] == NUL then []
    else
      var e := Scan(m, k, z, delim);
      if m[e] == NUL then [Span(k, e)] else [Span(k, e)] + Runs(m, e + 1, z, delim)
  }

  ghost predicate Ordered(spans: seq<Span>) {
    forall a, b :: 0 <= a < b < |spans| ==> spans[a].to < spans[b].from
  }

  ghost predicate AllMaximal(m: seq<char>, i: nat, z: nat, delim: set<char>, spans: seq<Span>)
    requires i <= z <= |m|
  {
    forall n :: 0 <= n < |spans| ==> MaximalRun(m, i, z, delim, spans[n])
  }

  lemma FirstRunIsMaximal(m: seq<char>, i: nat, z: nat, delim: set<char>, k: nat, e: nat)
    requires StringTo(m, i, z) && NUL !in delim
    requires k == Skip(m, i, z, delim) && m[k] != NUL && e == Scan(m, k, z, delim)
    ensures MaximalRun(m, i, z, delim, Span(k, e))
    ensures m[e] == NUL ==> e == z
    ensures m[e] != NUL ==> m[e] in delim && e < z
  {
    SkipFacts(m, i, z, delim);
    ScanFacts(m, k, z, delim);
  }

  /** Behind a delimiter at e, more maximal runs may follow the one that ends there. */
  lemma RunsPrepend(m: seq<char>, i: nat, z: nat, delim: set<char>, first: Span, rest: seq<Span>, all: seq<Span>)
    requires i <= z <= |m| && MaximalRun(m, i, z, delim, first) && first.to < z && m[first.to] in delim
    requires AllMaximal(m, first.to + 1, z, delim, rest) && Ordered(rest)
    requires all == [first] + rest
    ensures AllMaximal(m, i, z, delim, all) && Ordered(all)
  {
    forall n | 0 <= n < |all|
      ensures MaximalRun(m, i, z, delim, all[n]) && (n > 0 ==> first.to < all[n].from)
    {
      if n > 0 {
        assert MaximalRun(m, first.to + 1, z, delim, rest[n - 1]);
      }
    }
  }

  /** Every span listed is a maximal run, and they come in order. */
  lemma {:induction false} RunsAreMaximal(m: seq<char>, i: nat, z: nat, delim: set<char>)
    requires StringTo(m, i, z) && NUL !in delim
    ensures AllMaximal(m, i, z, delim, Runs(m, i, z, delim)) && Ordered(Runs(m, i, z, delim))
    decreases z - i
  {
    var k := Skip(m, i, z, delim);
    var e := Scan(m, k, z, delim);
    FirstRun(m, i, z, delim, k, e);
    if m[k] != NUL {
      FirstRunIsMaximal(m, i, z, delim, k, e);
      if m[e] != NUL {
        RunsAreMaximal(m, e + 1, z, delim);
        RunsPrepend(m, i, z, delim, Span(k, e), Runs(m, e + 1, z, delim), Runs(m, i, z, delim));
      }
    }
  }

  /** The three ways the list of runs begins. */
  lemma FirstRun(m: seq<char>, i: nat, z: nat, delim: set<char>, k: nat, e: nat)
    requires Stops(m, i, z) && k == Skip(m, i, z, delim) && e == Scan(m, k, z, delim)
    ensures m[k] == NUL ==> Runs(m, i, z, delim) == []
    ensures m[k] != NUL && m[e] == NUL ==> Runs(m, i, z, delim) == [Span(k, e)]
    ensures m[k] != NUL && m[e] != NUL ==> e < z && Runs(m, i, z, delim) == [Span(k, e)] + Runs(m, e + 1, z, delim)
  {
  }

  /** A maximal run is the first one, or lies behind it and is maximal there. */
  lemma FirstOrLater(m: seq<char>, i: nat, z: nat, delim: set<char>, first: Span, s: Span)
    requires i <= z <= |m| && MaximalRun(m, i, z, delim, first) && MaximalRun(m, i, z, delim, s)
    requires forall j :: i <= j < first.from ==> m[j] in delim
    ensures s == first || (first.to < z && first.to < s.from && MaximalRun(m, first.to + 1, z, delim, s))
  {
    assert m[s.from] !in delim;
    if s.from < first.to {
      assert s.from == first.from;
      assert s.to == first.to;
    }
  }

  /** No maximal run is missed. */
  lemma {:induction false} RunsAreComplete(m: seq<char>, i: nat, z: nat, delim: set<char>, s: Span)
    requires StringTo(m, i, z) && NUL !in delim && MaximalRun(m, i, z, delim, s)
    ensures s in Runs(m, i, z, delim)
    decreases z - i
  {
    var k := Skip(m, i, z, delim);
    SkipFacts(m, i, z, delim);
    assert m[s.from] !in delim;
    var e := Scan(m, k, z, delim);
    FirstRunIsMaximal(m, i, z, delim, k, e);
    FirstRun(m, i, z, delim, k, e);
    FirstOrLater(m, i, z, delim, Span(k, e), s);
    if s != Span(k, e) {
      RunsAreComplete(m, e + 1, z, delim, s);
    }
  }

  /** The runs only depend on the memory from i on. */
  lemma {:induction false} RunsIgnoreWhatIsBefore(m: seq<char>, m': seq<char>, i: nat, z: nat, delim: set<char>)
    requires Stops(m, i, z) && NUL !in delim
    requires |m'| == |m| && forall j :: i <= j < |m| ==> m'[j] == m[j]
    ensures Runs(m', i, z, delim) == Runs(m, i, z, delim)
    decreases z - i
  {
    var k := Skip(m, i, z, delim);
    var e := Scan(m, k, z, delim);
    SameSkipAndScan(m, m', i, z, delim, k, e);
    FirstRun(m, i, z, delim, k, e);
    FirstRun(m', i, z, delim, k, e);
    if m[k] != NUL && m[e] != NUL {
      RunsIgnoreWhatIsBefore(m, m', e + 1, z, delim);
    }
  }

  lemma SameSkipAndScan(m: seq<char>, m': seq<char>, i: nat, z: nat, delim: set<char>, k: nat, e: nat)
    requires Stops(m, i, z) && NUL !in delim && k == Skip(m, i, z, delim) && e == Scan(m, k, z, delim)
    requires |m'| == |m| && forall j :: i <= j < |m| ==> m'[j] == m[j]
    ensures Skip(m', i, z, delim) == k && Scan(m', k, z, delim) == e
  {
    SkipFacts(m, i, z, delim);
    SkipIs(m', i, z, delim, k);
    ScanFacts(m, k, z, delim);
    ScanIs(m', k, z, delim, e);
  }

  // ------------------------------------------------------------------ calling until NULL

  datatype Drained = Drained(mem: seq<char>, toks: seq<nat>) {
    function Parts(): (seq<char>, seq<nat>) {
      (mem, toks)
    }
  }

  function Drain(m: seq<char>, start: Option<nat>, z: nat, delim: set<char>): (d: Drained)
    requires Ready(m, start, z)
    ensures |d.mem| == |m|
    decreases if start.Some? && start.value <= z then z - start.value + 1 else 0
  {
    var t := Strtok(m, start, z, delim);
    if t.tok.None? then Drained(t.mem, [])
    else
      var d := Drain(t.mem, t.last, z, delim);
      Drained(d.mem, [t.tok.value] + d.toks)
  }

  /** Each pointer returned reads, in the final memory, as the run of the original. */
  ghost predicate Intact(m: seq<char>, d: Drained, runs: seq<Span>) {
    && |d.mem| == |m|
    && |d.toks| == |runs|
    && (forall n :: 0 <= n < |runs| ==> TokenIs(m, d.mem, d.toks[n], runs[n]))
  }

  ghost predicate TokenIs(m: seq<char>, mem: seq<char>, tok: nat, run: Span) {
    && tok == run.from <= run.to <= |m|
    && Terminated(mem, tok)
    && Text(mem, tok) == m[run.from..run.to]
  }

  lemma TokenIsUntouched(m: seq<char>, mem: seq<char>, k: nat, e: nat)
    requires k <= e < |m| && |mem| == |m|
    requires forall j :: k <= j < e ==> m[j] != NUL
    requires mem[e] == NUL && forall j :: k <= j < e ==> mem[j] == m[j]
    ensures TokenIs(m, mem, k, Span(k, e))
  {
    StrEndIs(mem, k, e);
    assert mem[k..e] == m[k..e];
  }

  /** Tokens that lie behind position e do not notice a change at e. */
  lemma IntactFromBehind(m: seq<char>, e: nat, d: Drained, runs: seq<Span>)
    requires e < |m| && Intact(m[e := NUL], d, runs)
    requires forall n :: 0 <= n < |runs| ==> e < runs[n].from
    ensures Intact(m, d, runs)
  {
    forall n | 0 <= n < |runs| ensures TokenIs(m, d.mem, d.toks[n], runs[n]) {
      assert TokenIs(m[e := NUL], d.mem, d.toks[n], runs[n]);
      assert m[e := NUL][runs[n].from..runs[n].to] == m[runs[n].from..runs[n].to];
    }
  }

  lemma IntactPrepend(m: seq<char>, d: Drained, rest: seq<Span>, k: nat, e: nat, all: Drained, runs: seq<Span>)
    requires Intact(m, d, rest) && TokenIs(m, d.mem, k, Span(k, e))
    requires all == Drained(d.mem, [k] + d.toks) && runs == [Span(k, e)] + rest
    ensures Intact(m, all, runs)
  {
    forall n | 0 <= n < |runs| ensures TokenIs(m, all.mem, all.toks[n], runs[n]) {
      assert n > 0 ==> TokenIs(m, d.mem, d.toks[n - 1], rest[n - 1]);
    }
  }

  ghost predicate SameBefore(m: seq<char>, m': seq<char>, i: nat) {
    |m| == |m'| && forall j :: 0 <= j < i && j < |m| ==> m[j] == m'[j]
  }

  /**
   Draining the tokenizer yields the runs in order, leaves memory before the starting
   point alone, and afterwards each pointer returned still reads as its run of the
   original string.
   */
  lemma {:induction false} DrainYieldsRuns(m: seq<char>, i: nat, z: nat, delim: set<char>)
    requires StringTo(m, i, z) && NUL !in delim
    ensures SameBefore(Drain(m, Some(i), z, delim).mem, m, i)
    ensures Intact(m, Drain(m, Some(i), z, delim), Runs(m, i, z, delim))
    decreases z - i
  {
    var k := Skip(m, i, z, delim);
    var e := Scan(m, k, z, delim);
    FirstRun(m, i, z, delim, k, e);
    if m[k] != NUL {
      FirstRunIsMaximal(m, i, z, delim, k, e);
      ScanFacts(m, k, z, delim);
      if m[e] == NUL {
        OnlyCall(m, i, z, delim, k, e);
        TokenIsUntouched(m, m, k, e);
      } else {
        DrainYieldsRuns(m[e := NUL], e + 1, z, delim);
        DrainStep(m, i, z, delim, k, e, Drain(m[e := NUL], Some(e + 1), z, delim));
      }
    }
  }

  lemma DrainStep(m: seq<char>, i: nat, z: nat, delim: set<char>, k: nat, e: nat, d: Drained)
    requires StringTo(m, i, z) && NUL !in delim
    requires k == Skip(m, i, z, delim) && m[k] != NUL && e == Scan(m, k, z, delim) && e < z && m[e] != NUL
    requires forall j :: k <= j < e ==> m[j] != NUL
    requires d == Drain(m[e := NUL], Some(e + 1), z, delim)
    requires SameBefore(d.mem, m[e := NUL], e + 1) && Intact(m[e := NUL], d, Runs(m[e := NUL], e + 1, z, delim))
    ensures SameBefore(Drain(m, Some(i), z, delim).mem, m, i)
    ensures Intact(m, Drain(m, Some(i), z, delim), Runs(m, i, z, delim))
  {
    RestOfDrain(m, e, z, delim);
    FirstCall(m, i, z, delim, k, e, d);
    FirstRun(m, i, z, delim, k, e);
    FirstThenRest(m, i, k, e, d, Runs(m, e + 1, z, delim), Drain(m, Some(i), z, delim), Runs(m, i, z, delim));
  }

  /** What the later calls return is also intact with respect to the memory before the first. */
  lemma RestOfDrain(m: seq<char>, e: nat, z: nat, delim: set<char>)
    requires StringTo(m, e + 1, z) && NUL !in delim
    requires Intact(m[e := NUL], Drain(m[e := NUL], Some(e + 1), z, delim), Runs(m[e := NUL], e + 1, z, delim))
    ensures Intact(m, Drain(m[e := NUL], Some(e + 1), z, delim), Runs(m, e + 1, z, delim))
  {
    RunsIgnoreWhatIsBefore(m, m[e := NUL], e + 1, z, delim);
    RunsAreMaximal(m, e + 1, z, delim);
    IntactFromBehind(m, e, Drain(m[e := NUL], Some(e + 1), z, delim), Runs(m, e + 1, z, delim));
  }

  lemma FirstThenRest(m: seq<char>, i: nat, k: nat, e: nat, d: Drained, rest: seq<Span>, all: Drained, runs: seq<Span>)
    requires i <= k <= e < |m| && (forall j :: k <= j < e ==> m[j] != NUL)
    requires Intact(m, d, rest) && SameBefore(d.mem, m[e := NUL], e + 1)
    requires all == Drained(d.mem, [k] + d.toks) && runs == [Span(k, e)] + rest
    ensures SameBefore(all.mem, m, i) && Intact(m, all, runs)
  {
    TokenIsUntouched(m, d.mem, k, e);
    IntactPrepend(m, d, rest, k, e, all, runs);
  }

  /** A call whose token ends the string is the last to return one. */
  lemma OnlyCall(m: seq<char>, i: nat, z: nat, delim: set<char>, k: nat, e: nat)
    requires Stops(m, i, z) && k == Skip(m, i, z, delim) && m[k] != NUL
    requires e == Scan(m, k, z, delim) && m[e] == NUL
    ensures Drain(m, Some(i), z, delim) == Drained(m, [k])
  {
    assert Strtok(m, Some(i), z, delim) == Token(m, Some(k), None);
    assert Drain(m, None, z, delim) == Drained(m, []);
  }

  /** One call that finds a delimiter behind its token, and what is left to do. */
  lemma FirstCall(m: seq<char>, i: nat, z: nat, delim: set<char>, k: nat, e: nat, d: Drained)
    requires Stops(m, i, z) && k == Skip(m, i, z, delim) && m[k] != NUL
    requires e == Scan(m, k, z, delim) && e < z && m[e] != NUL
    requires d == Drain(m[e := NUL], Some(e + 1), z, delim)
    ensures Drain(m, Some(i), z, delim) == Drained(d.mem, [k] + d.toks)
  {
    assert Strtok(m, Some(i), z, delim) == Token(m[e := NUL], Some(k), Some(e + 1));
  }

  /**
   For any string and any delimiter set, the tokens are exactly the maximal runs of
   non-delimiters of the original string, in order, and all of them are intact
   once the last call has returned NULL.
   */
  lemma TokensAreTheMaximalRuns(m: seq<char>, i: nat, z: nat, delim: set<char>)
    requires StringTo(m, i, z) && NUL !in delim
    ensures var runs := Runs(m, i, z, delim);
      && (forall s :: s in runs <==> MaximalRun(m, i, z, delim, s))
      && Ordered(runs)
      && Intact(m, Drain(m, Some(i), z, delim), runs)
  {
    RunsAreMaximal(m, i, z, delim);
    forall s | s in Runs(m, i, z, delim) ensures MaximalRun(m, i, z, delim, s) {
    }
    forall s | MaximalRun(m, i, z, delim, s) ensures s in Runs(m, i, z, delim) {
      RunsAreComplete(m, i, z, delim, s);
    }
    DrainYieldsRuns(m, i, z, delim);
  }

  /** The calls themselves, made until NULL; the loop ends. */
  method TokenizeAll(a: array<char>, s: nat, delim: string, ghost z: nat) returns (toks: seq<nat>)
    requires NUL !in Chars(delim) && Stops(a[..], s, z)
    modifies a
    ensures Drained(a[..], toks) == Drain(old(a[..]), Some(s), z, Chars(delim))
  {
    toks := [];
    ghost var D, m := Chars(delim), a[..];
    ghost var want := Drain(m, Some(s), z, D);
    var tok, last := StrtokR(a, Some(s), delim, None, z);
    assert Token(a[..], tok, last) == Strtok(m, Some(s), z, D);
    while tok.Some?
      invariant Ready(a[..], last, z)
      invariant tok.None? ==> want == Drained(a[..], toks)
      invariant tok.Some? ==> Continues(want.Parts(), toks + [tok.value], Drain(a[..], last, z, D).Parts())
      decreases tok.Some?, if last.Some? then z - last.value + 1 else 0
    {
      toks := toks + [tok.value];
      m := a[..];
      ghost var before := last;
      tok, last := StrtokR(a, None, delim, last, z);
      assert Token(a[..], tok, last) == Strtok(m, before, z, D);
      if tok.Some? {
        ContinuesStep(want.Parts(), toks, [tok.value], Drain(a[..], last, z, D).Parts());
      }
    }
  }
}
