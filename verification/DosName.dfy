/**
 File names in the 8.3 form of FAT directory entries ("DIR_Name" in section "FAT Directory
 Structure" of the Microsoft FAT specification), and the directory scan that looks for them.

 The two converters rewrite a name in place: upper-case the base, remember up to
 three mapped bytes of the extension, then pad and append over the original.
 */
module DosName {
  import opened CString

  // ------------------------------------------------------------------ the closed form

  predicate IsLower(c: char) {
    'a' <= c <= 'z'
  }

  function Upper(c: char): char {
    if IsLower(c) then (c as int - 0x20) as char else c
  }

  /** The bytes an extension keeps as they are. */
  predicate IsKept(c: char) {
    c in {'$', '%', '-', '_', '(', ')', '{', '}'} || '0' <= c <= '9'
  }

  /** What becomes of an extension byte; anything else, upper-case letters included, is blanked. */
  function ExtByte(c: char): char {
    if IsLower(c) then Upper(c) else if IsKept(c) then c else ' '
  }

  function UpperAll(s: string): (r: string)
    ensures |r| == |s| && forall i :: 0 <= i < |s| ==> r[i] == Upper(s[i])
  {
    seq(|s|, i requires 0 <= i < |s| => Upper(s[i]))
  }

  /** Where the base ends: at the first dot, or at the end of the name. */
  function BaseLength(name: string): (d: nat)
    ensures d <= |name|
    ensures forall i :: 0 <= i < d ==> name[i] != '.'
    ensures d < |name| ==> name[d] == '.'
  {
    if name == [] || name[0] == '.' then 0 else 1 + BaseLength(name[1..])
  }

  predicate Dotted(name: string) {
    BaseLength(name) < |name|
  }

  /** The i-th byte of the extension field of a dotted name. */
  function ExtField(name: string, i: nat): char {
    var k := BaseLength(name) + 1 + i;
    if k < |name| then ExtByte(name[k]) else ' '
  }

  /** The converted name; `preset` is the extension of names that have no dot. */
  function Converted(name: string, preset: string): string {
    var d := BaseLength(name);
    if name == [] then []
    else
      UpperAll(name[..d]) + Spaces(8 - d)
        + if Dotted(name) then [ExtField(name, 0), ExtField(name, 1), ExtField(name, 2)] else preset
  }

  /** Up to n characters from k on, ended by a NUL. */
  function CharsFrom(m: seq<char>, k: nat, n: nat): (s: string)
    ensures |s| <= n && NulFree(s)
    ensures forall i :: 0 <= i < |s| ==> k + i < |m| && m[k + i] == s[i]
    ensures |s| < n ==> k + |s| >= |m| || m[k + |s|] == NUL
  {
    if k > |m| then []
    else
      var z := StrEnd(m, k);
      m[k..if z < k + n then z else k + n]
  }

  /**
   The name the converters work on.  In a name of more than eight characters without a dot they take the
   terminator for the dot, and whatever is in memory behind it for the extension.
   */
  function Taken(m: seq<char>): string
    requires Terminated(m, 0)
  {
    var name := Text(m, 0);
    if Dotted(name) || |name| <= 8 then name else name + ("." + CharsFrom(m, |name| + 1, 3))
  }

  function Max(a: int, b: int): int {
    if a >= b then a else b
  }

  // ------------------------------------------------------------------ the converters

  /** The first loop: upper-case in place up to the dot or the end. */
  method UpcaseBase(a: array<char>, ghost name: string) returns (p: nat)
    requires |name| < a.Length && a[..|name|] == name && a[|name|] == NUL && NulFree(name)
    modifies a
    ensures p == BaseLength(name)
    ensures a[..p] == UpperAll(name[..p])
    ensures forall k :: p <= k < a.Length ==> a[k] == old(a[k])
  {
    assert forall k :: 0 <= k < |name| ==> a[k] == a[..|name|][k] == name[k];
    p := 0;
    while a[p] != NUL && a[p] != '.'
      invariant 0 <= p <= BaseLength(name)
      invariant forall k :: 0 <= k < p ==> a[k] == Upper(name[k])
      invariant forall k :: p <= k < a.Length ==> a[k] == old(a[k])
      decreases |name| - p
    {
      if 'a' <= a[p] <= 'z' {
        a[p] := (a[p] as int - 0x20) as char;
      }
      p := p + 1;
    }
  }

  /** The second loop: read up to three extension bytes behind the dot, or what passes for one, at p. */
  method CollectExt(a: array<char>, p: nat, ghost name: string) returns (ext: seq<char>)
    requires p + 3 < a.Length && NulFree(name) && Dotted(name) && p == BaseLength(name)
    requires forall k :: p < k < |name| && k <= p + 3 ==> a[k] == name[k]
    requires |name| <= p + 3 ==> a[|name|] == NUL
    modifies a
    ensures |ext| == 3 && forall i :: 0 <= i < 3 ==> Fill(ext[i]) == ExtField(name, i)
    ensures forall k :: 0 <= k <= p || p + 3 < k < a.Length ==> a[k] == old(a[k])
  {
    ext := [NUL, NUL, NUL];
    var i := 0;
    while i < 3 && a[p + i + 1] != NUL
      invariant 0 <= i <= 3 && p + i + 1 <= |name|
      invariant |name| <= p + 3 ==> a[|name|] == NUL
      invariant |ext| == 3
      invariant forall k :: 0 <= k < i ==> Fill(ext[k]) == ExtField(name, k)
      invariant forall k :: i <= k < 3 ==> ext[k] == NUL
      invariant forall k :: p + i + 1 <= k < |name| && k <= p + 3 ==> a[k] == name[k]
      invariant forall k :: 0 <= k <= p || p + 3 < k < a.Length ==> a[k] == old(a[k])
    {
      var c := a[p + i + 1];
      if 'a' <= c <= 'z' {
        c := (c as int - 0x20) as char;
        a[p + i + 1] := c;
        ext := ext[i := c];
      }
      if c in {'$', '%', '-', '_', '(', ')', '{', '}'} {
        ext := ext[i := c];
      }
      if '0' <= c <= '9' {
        ext := ext[i := c];
      }
      i := i + 1;
    }
  }

  /** A collected byte, or a space where there was none. */
  function Fill(c: char): char {
    if c == NUL then ' ' else c
  }

  /** The last loops: pad the base to eight, then the extension, then NUL. */
  method Complete(a: array<char>, p: nat, ext: seq<char>)
    requires |ext| == 3 && Max(8, p) + 3 < a.Length
    modifies a
    ensures a[..Max(8, p) + 3] == old(a[..p]) + Spaces(8 - p) + [Fill(ext[0]), Fill(ext[1]), Fill(ext[2])]
    ensures a[Max(8, p) + 3] == NUL
    ensures forall k :: Max(8, p) + 3 < k < a.Length ==> a[k] == old(a[k])
  {
    var q := p;
    while q < 8
      invariant p <= q <= Max(8, p)
      invariant forall k :: p <= k < q ==> a[k] == ' '
      invariant forall k :: 0 <= k < p || q <= k < a.Length ==> a[k] == old(a[k])
    {
      a[q] := ' ';
      q := q + 1;
    }
    ghost var start := q;
    var i := 0;
    while i < 3
      invariant 0 <= i <= 3 && q == start + i
      invariant forall k :: p <= k < start ==> a[k] == ' '
      invariant forall k :: start <= k < q ==> a[k] == Fill(ext[k - start])
      invariant forall k :: 0 <= k < p || q <= k < a.Length ==> a[k] == old(a[k])
    {
      if ext[i] != NUL {
        a[q] := ext[i];
      } else {
        a[q] := ' ';
      }
      q := q + 1;
      i := i + 1;
    }
    a[q] := NUL;
    assert a[..p] == old(a[..p]);
    assert a[p..start] == Spaces(8 - p);
    assert a[start] == Fill(ext[0]) && a[start + 1] == Fill(ext[1]) && a[start + 2] == Fill(ext[2]);
    assert a[start..q] == [Fill(ext[0]), Fill(ext[1]), Fill(ext[2])];
    assert a[..q] == a[..p] + a[p..start] + a[start..q];
  }

  /**
   Both converters: the string in the buffer becomes its closed form, and no extension
   byte is lost although the padding is written over the place it was read from.
   */
  method Convert(a: array<char>, preset: string)
    requires Terminated(a[..], 0) && |preset| == 3 && NulFree(preset)
    requires Max(8, BaseLength(Text(a[..], 0))) + 3 < a.Length
    modifies a
    ensures Terminated(a[..], 0)
    ensures Text(a[..], 0) == Converted(Taken(old(a[..])), preset)
    ensures forall k :: Max(|old(Text(a[..], 0))|, |Text(a[..], 0)|) < k < a.Length ==> a[k] == old(a[k])
  {
    ghost var m, taken := a[..], Taken(a[..]);
    TakenBase(m, Text(m, 0), taken);
    if a[0] == NUL {
      return;
    }
    var p := UpcaseBase(a, Text(m, 0));
    assert forall k :: p <= k < a.Length ==> a[k] == m[k];
    var ext := PickExt(a, p, preset, m);
    ConvertedFrom(taken, preset, p, ext);
    assert a[..p] == UpperAll(taken[..p]);
    Complete(a, p, ext);
    ConvertedIsText(taken, preset);
    TextInFront(a[..], Converted(taken, preset));
  }

  /** The three bytes of the extension: preset for a short name that ends at p, else read from there on. */
  method PickExt(a: array<char>, p: nat, preset: string, ghost m: seq<char>) returns (ext: seq<char>)
    requires Terminated(m, 0) && |m| == a.Length && p == BaseLength(Text(m, 0)) && p + 3 < a.Length
    requires forall k :: p <= k < a.Length ==> a[k] == m[k]
    requires |preset| == 3
    modifies a
    ensures |ext| == 3
    ensures if Dotted(Taken(m)) then forall i :: 0 <= i < 3 ==> Fill(ext[i]) == ExtField(Taken(m), i) else ext == preset
    ensures forall k :: 0 <= k < p || p + 3 < k < a.Length ==> a[k] == old(a[k])
  {
    ghost var taken := Taken(m);
    TakenBase(m, Text(m, 0), taken);
    if a[p] == NUL && p <= 8 {
      return preset;
    }
    TakenInMemory(m, Text(m, 0), taken, p);
    ext := CollectExt(a, p, taken);
  }

  /** The closed form, put together from the base and the three bytes collected or preset. */
  lemma ConvertedFrom(name: string, preset: string, d: nat, ext: string)
    requires name != [] && d == BaseLength(name) && |preset| == |ext| == 3 && NulFree(preset)
    requires if Dotted(name) then forall i :: 0 <= i < 3 ==> Fill(ext[i]) == ExtField(name, i) else ext == preset
    ensures Converted(name, preset) == UpperAll(name[..d]) + Spaces(8 - d) + [Fill(ext[0]), Fill(ext[1]), Fill(ext[2])]
    ensures |Converted(name, preset)| == Max(8, d) + 3
  {
    if !Dotted(name) {
      assert preset == [Fill(ext[0]), Fill(ext[1]), Fill(ext[2])];
    }
  }

  /** The name taken has the base of the name given, and a dot unless that was short and had none. */
  lemma TakenBase(m: seq<char>, name: string, taken: string)
    requires Terminated(m, 0) && name == Text(m, 0) && taken == Taken(m)
    ensures NulFree(name) && NulFree(taken) && (taken == [] <==> name == [])
    ensures BaseLength(taken) == BaseLength(name) && taken[..BaseLength(name)] == name[..BaseLength(name)]
    ensures Dotted(taken) <==> Dotted(name) || |name| > 8
    ensures m[BaseLength(name)] == NUL <==> !Dotted(name)
  {
    if taken != name {
      BaseOfDotted(name, CharsFrom(m, |name| + 1, 3));
    }
  }

  /** Its extension is in memory where the converters look for it. */
  lemma TakenInMemory(m: seq<char>, name: string, taken: string, d: nat)
    requires Terminated(m, 0) && name == Text(m, 0) && taken == Taken(m)
    requires d == BaseLength(name) == BaseLength(taken) && Dotted(taken) && d + 3 < |m|
    ensures forall k :: d < k < |taken| && k <= d + 3 ==> m[k] == taken[k]
    ensures |taken| <= d + 3 ==> m[|taken|] == NUL
  {
    if Dotted(name) || |name| <= 8 {
      assert |taken| == StrEnd(m, 0);
    } else {
      BehindTheTerminator(m, name, CharsFrom(m, |name| + 1, 3), taken);
    }
  }

  lemma BehindTheTerminator(m: seq<char>, name: string, ext: string, taken: string)
    requires |name| + 3 < |m| && ext == CharsFrom(m, |name| + 1, 3) && taken == name + ("." + ext)
    ensures forall k :: |name| < k < |taken| ==> m[k] == taken[k]
    ensures |taken| <= |name| + 3 ==> m[|taken|] == NUL
  {
    assert forall k :: |name| < k < |taken| ==> taken[k] == ext[k - |name| - 1];
  }

  lemma {:induction false} BaseOfDotted(base: string, ext: string)
    requires BaseLength(base) == |base|
    ensures BaseLength(base + ("." + ext)) == |base|
  {
    if base != [] {
      assert (base + ("." + ext))[1..] == base[1..] + ("." + ext);
      BaseOfDotted(base[1..], ext);
    }
  }

  lemma ConvertedIsText(name: string, preset: string)
    requires NulFree(name) && NulFree(preset)
    ensures NulFree(Converted(name, preset))
  {
  }

  /** Where the extension field of a dotted name is. */
  lemma ExtFieldOf(name: string, preset: string, m: nat)
    requires Dotted(name) && m == Max(8, BaseLength(name))
    ensures |Converted(name, preset)| == m + 3
    ensures Converted(name, preset)[m..] == [ExtField(name, 0), ExtField(name, 1), ExtField(name, 2)]
  {
    var d: int := BaseLength(name);
    assert |UpperAll(name[..d]) + Spaces(8 - d)| == m;
  }

  method FsFntos(a: array<char>)
    requires Terminated(a[..], 0) && Max(8, BaseLength(Text(a[..], 0))) + 3 < a.Length
    modifies a
    ensures Terminated(a[..], 0) && Text(a[..], 0) == Converted(Taken(old(a[..])), "BIN")
  {
    Convert(a, "BIN");
  }

  method FsFntos2(a: array<char>)
    requires Terminated(a[..], 0) && Max(8, BaseLength(Text(a[..], 0))) + 3 < a.Length
    modifies a
    ensures Terminated(a[..], 0) && Text(a[..], 0) == Converted(Taken(old(a[..])), "   ")
  {
    Convert(a, "   ");
  }

  // ------------------------------------------------------------------ properties of the conversion

  /** An upper-case letter and its lower-case form, by their places in the alphabet. */
  ghost predicate Cases(upper: char, lower: char) {
    'A' <= upper <= 'Z' && 'a' <= lower <= 'z' && upper as int - 'A' as int == lower as int - 'a' as int
  }

  /** The same character but for case. */
  ghost predicate SameButCase(c: char, d: char) {
    c == d || Cases(c, d) || Cases(d, c)
  }

  ghost predicate NoLowerCase(s: string) {
    forall i :: 0 <= i < |s| ==> !('a' <= s[i] <= 'z')
  }

  /**
   What the base becomes: each character the same but for case and none in lower case, then blanks up to
   eight.  A base without lower-case letters is kept as it is.
   */
  lemma ConvertedBase(name: string, preset: string)
    requires name != [] && |preset| == 3
    ensures var d, c := BaseLength(name), Converted(name, preset);
      && |c| == Max(8, d) + 3
      && (forall i :: 0 <= i < d ==> SameButCase(name[i], c[i]) && !('a' <= c[i] <= 'z'))
      && (forall i :: d <= i < 8 ==> c[i] == ' ')
      && (NoLowerCase(name[..d]) ==> c[..d] == name[..d])
  {
  }

  /** What an extension byte may become: a letter loses its case, digits and eight signs stay, all else is blanked. */
  ghost predicate ExtBecomes(c: char, e: char) {
    if 'a' <= c <= 'z' then Cases(e, c)
    else if '0' <= c <= '9' || c == '$' || c == '%' || c == '-' || c == '_' then e == c
    else if c == '(' || c == ')' || c == '{' || c == '}' then e == c
    else e == ' '
  }

  /** The three extension bytes of a dotted name, one by one; where the name has none they are blank. */
  lemma ConvertedExtension(name: string, preset: string, i: nat, c: string, d: nat, m: nat)
    requires Dotted(name) && |preset| == 3 && i < 3
    requires c == Converted(name, preset) && d == BaseLength(name) && m == Max(8, d)
    ensures |c| == m + 3
    ensures d + 1 + i < |name| ==> ExtBecomes(name[d + 1 + i], c[m + i])
    ensures d + 1 + i >= |name| ==> c[m + i] == ' '
  {
    ExtFieldOf(name, preset, m);
    var three := [ExtField(name, 0), ExtField(name, 1), ExtField(name, 2)];
    IndexBehind(c, m, i, three);
    assert three[i] == ExtField(name, i) by {
      assert i == 0 || i == 1 || i == 2;
    }
    ExtFieldBecomes(name, i, d);
  }

  lemma IndexBehind(c: string, m: nat, i: nat, three: string)
    requires m <= |c| && c[m..] == three && i < |three|
    ensures m + i < |c| && c[m + i] == three[i]
  {
    assert c[m..][i] == c[m + i];
  }

  lemma ExtFieldBecomes(name: string, i: nat, d: nat)
    requires d == BaseLength(name)
    ensures d + 1 + i < |name| ==> ExtBecomes(name[d + 1 + i], ExtField(name, i))
    ensures d + 1 + i >= |name| ==> ExtField(name, i) == ' '
  {
    if d + 1 + i < |name| {
      ExtByteBecomes(name[d + 1 + i]);
    }
  }

  lemma ExtByteBecomes(c: char)
    ensures ExtBecomes(c, ExtByte(c))
  {
  }

  lemma LastThree(name: string, preset: string, c: string, d: nat, m: nat)
    requires name != [] && |preset| == 3 && NoLowerCase(preset)
    requires c == Converted(name, preset) && d == BaseLength(name) && m == Max(8, d) && |c| == m + 3
    ensures forall i :: m <= i < m + 3 ==> !('a' <= c[i] <= 'z')
  {
    forall i | m <= i < m + 3 ensures !('a' <= c[i] <= 'z') {
      if Dotted(name) {
        ConvertedExtension(name, preset, i - m, c, d, m);
      } else {
        assert c[m..] == preset;
        IndexBehind(c, m, i - m, preset);
      }
    }
  }

  /** No lower-case letter is left anywhere. */
  lemma ConvertedHasNoLowerCase(name: string, preset: string)
    requires |preset| == 3 && NoLowerCase(preset)
    ensures NoLowerCase(Converted(name, preset))
  {
    if name != [] {
      ConvertedBase(name, preset);
      LastThree(name, preset, Converted(name, preset), BaseLength(name), Max(8, BaseLength(name)));
    }
  }

  /** With a dot the two converters agree; without one they differ in the last three bytes only. */
  lemma ConvertersDifferOnlyInPreset(name: string)
    requires name != [] && NulFree(name)
    ensures var bin, plain := Converted(name, "BIN"), Converted(name, "   ");
      && |bin| == |plain| == Max(8, BaseLength(name)) + 3
      && (Dotted(name) ==> bin == plain)
      && (!Dotted(name) ==> bin[..|bin| - 3] == plain[..|bin| - 3] && bin[|bin| - 3..] == "BIN" && plain[|bin| - 3..] == "   ")
  {
    var d: int := BaseLength(name);
    var front := UpperAll(name[..d]) + Spaces(8 - d);
    assert |front| == Max(8, d);
    if !Dotted(name) {
      assert Converted(name, "BIN") == front + "BIN";
      assert Converted(name, "   ") == front + "   ";
    }
  }

  /** The upper-cased extension, padded, which is what a directory entry should hold. */
  function ExpectedExt(ext: string): string
    requires |ext| <= 3
  {
    UpperAll(ext) + Spaces(3 - |ext|)
  }

  lemma ExtByteSurvivesIff(name: string, ext: string, i: nat)
    requires Dotted(name) && ext == name[BaseLength(name) + 1..] && |ext| <= 3 && i < 3
    ensures ExtField(name, i) == ExpectedExt(ext)[i] <==>
      (i < |ext| ==> IsLower(ext[i]) || IsKept(ext[i]) || ext[i] == ' ')
  {
    assert i < |ext| ==> name[BaseLength(name) + 1 + i] == ext[i];
  }

  /**
   The extension field comes out as the upper-cased extension exactly when the extension was
   written in lower case, digits and the kept signs: "file.txt" is converted as expected,
   "FILE.TXT" loses its extension.
   */
  lemma ExtensionSurvivesIff(name: string, preset: string)
    requires NulFree(name) && Dotted(name) && |preset| == 3 && NulFree(preset)
    requires |name| - BaseLength(name) - 1 <= 3
    ensures var ext := name[BaseLength(name) + 1..];
      var field := Converted(name, preset)[Max(8, BaseLength(name))..];
      field == ExpectedExt(ext) <==> forall k :: 0 <= k < |ext| ==> IsLower(ext[k]) || IsKept(ext[k]) || ext[k] == ' '
  {
    var ext := name[BaseLength(name) + 1..];
    ExtFieldOf(name, preset, Max(8, BaseLength(name)));
    ExtByteSurvivesIff(name, ext, 0);
    ExtByteSurvivesIff(name, ext, 1);
    ExtByteSurvivesIff(name, ext, 2);
    SameThree([ExtField(name, 0), ExtField(name, 1), ExtField(name, 2)], ExpectedExt(ext));
  }

  lemma SameThree(a: string, b: string)
    requires |a| == |b| == 3
    ensures a == b <==> a[0] == b[0] && a[1] == b[1] && a[2] == b[2]
  {
  }

  // ------------------------------------------------------------------ searching a directory

  const ENTRIES := 512
  const ENTRY_SIZE := 32
  const FREE_ENTRY: char := '\U{E5}'

  /** The eleven name bytes of entry i. */
  function EntryName(dir: seq<char>, i: nat): string
    requires i < ENTRIES && |dir| >= ENTRIES * ENTRY_SIZE
  {
    dir[i * ENTRY_SIZE..i * ENTRY_SIZE + 11]
  }

  /** An entry in use that is not one of the dot entries. */
  predicate InUse(dir: seq<char>, i: nat)
    requires i < ENTRIES && |dir| >= ENTRIES * ENTRY_SIZE
  {
    dir[i * ENTRY_SIZE] != NUL && dir[i * ENTRY_SIZE] != FREE_ENTRY && dir[i * ENTRY_SIZE] != '.'
  }

  /** The name as it is compared: cut or filled with NULs to eleven bytes. */
  function Desired(name: string): (s: string)
    ensures |s| == 11
  {
    CutOrFill(name, 11)
  }

  /** A string in a field of n characters, without a NUL if it does not fit. */
  function CutOrFill(s: string, n: nat): (r: string)
    ensures |r| == n
  {
    if |s| >= n then s[..n] else s + seq(n - |s|, i => NUL)
  }

  ghost predicate Present(name: string, dir: seq<char>)
    requires |name| == 11 && |dir| >= ENTRIES * ENTRY_SIZE
  {
    exists i :: 0 <= i < ENTRIES && InUse(dir, i) && EntryName(dir, i) == name
  }

  /** The scan accepts the name and comes across it. */
  ghost predicate Found(name: string, dir: seq<char>)
    requires |dir| >= ENTRIES * ENTRY_SIZE
  {
    0 < |name| <= 11 && name[0] != '/' && Present(Desired(name), dir)
  }

  /** strncpy of a string to the start of a buffer. */
  method Strncpy(dst: array<char>, src: seq<char>, n: nat)
    requires Terminated(src, 0) && n <= dst.Length
    modifies dst
    ensures dst[..n] == CutOrFill(Text(src, 0), n)
    ensures dst[n..] == old(dst[n..])
  {
    var i := 0;
    while i < n && src[i] != NUL
      invariant 0 <= i <= StrEnd(src, 0) && i <= n
      invariant forall k :: 0 <= k < i ==> dst[k] == src[k]
      invariant forall k :: i <= k < dst.Length ==> dst[k] == old(dst[k])
    {
      dst[i] := src[i];
      i := i + 1;
    }
    ghost var len := i;
    assert len == n || len == StrEnd(src, 0);
    while i < n
      invariant len <= i <= n
      invariant forall k :: 0 <= k < len ==> dst[k] == src[k]
      invariant forall k :: len <= k < i ==> dst[k] == NUL
      invariant forall k :: i <= k < dst.Length ==> dst[k] == old(dst[k])
    {
      dst[i] := NUL;
      i := i + 1;
    }
  }

  /**
   __search_in_dir_imp: for any name and any directory image, found if and only if the name is
   acceptable and some entry in use has exactly its eleven bytes.
   */
  method SearchInDir(fileName: seq<char>, dir: seq<char>) returns (found: bool)
    requires Terminated(fileName, 0) && |dir| >= ENTRIES * ENTRY_SIZE
    ensures found <==> Found(Text(fileName, 0), dir)
  {
    if fileName[0] == NUL {
      return false;
    }
    ghost var name := Text(fileName, 0);
    var size := 0;
    while fileName[size] != NUL
      invariant 0 <= size <= StrEnd(fileName, 0)
      decreases |fileName| - size
    {
      size := size + 1;
    }
    assert size == |name|;
    if size > 11 {
      return false;
    }
    var nameDesired := new char[13];
    if size == 10 {
      nameDesired[10] := ' ';
    }
    if size == 9 {
      nameDesired[10], nameDesired[9] := ' ', ' ';
    }
    if size == 8 {
      nameDesired[10], nameDesired[9], nameDesired[8] := ' ', ' ', ' ';
    }
    Strncpy(nameDesired, fileName, 11);
    nameDesired[11] := NUL;
    assert nameDesired[..11] == Desired(name);
    if fileName[0] == '/' {
      return false;
    }
    var i, j := 0, 0;
    while i < ENTRIES
      invariant 0 <= i <= ENTRIES && j == i * ENTRY_SIZE
      invariant nameDesired[..11] == Desired(name) && nameDesired[11] == NUL
      invariant forall k :: 0 <= k < i ==> !(InUse(dir, k) && EntryName(dir, k) == Desired(name))
    {
      if dir[j] != FREE_ENTRY && dir[j] != '.' && dir[j] != NUL {
        var nameInEntry := dir[j..j + 11] + [NUL];
        StrncmpIff(nameDesired[..], nameInEntry, 11);
        var status := GramadoStrncmp(nameDesired[..], nameInEntry, 11);
        assert nameDesired[..][..11] == Desired(name);
        assert nameInEntry[..11] == EntryName(dir, i);
        if status == 0 {
          return true;
        }
      }
      j := j + 0x20;
      i := i + 1;
    }
    return false;
  }

  /**
   Convert, then search: a name is found exactly when some entry in use has the converted bytes, which
   takes a base of at most eight.
   */
  lemma ConvertThenSearchIff(name: string, dir: seq<char>)
    requires name != [] && NulFree(name) && |dir| >= ENTRIES * ENTRY_SIZE
    ensures var c := Converted(name, "   ");
      && (|c| == 11 <==> BaseLength(name) <= 8)
      && (Found(c, dir) <==> c[0] != '/' && exists i :: 0 <= i < ENTRIES && InUse(dir, i) && EntryName(dir, i) == c)
      && (c[0] == '.' || c[0] == FREE_ENTRY ==> !Found(c, dir))
  {
    var c := Converted(name, "   ");
    var d: int := BaseLength(name);
    assert |UpperAll(name[..d]) + Spaces(8 - d)| == Max(8, d);
    assert |c| == 11 ==> Desired(c) == c;
    forall i | 0 <= i < ENTRIES && InUse(dir, i) ensures EntryName(dir, i)[0] == dir[i * ENTRY_SIZE] {
    }
  }

  /** How the open path looks a name up: convert it where it stands, then scan the directory. */
  method LookUp(a: array<char>, dir: seq<char>) returns (found: bool)
    requires Terminated(a[..], 0) && Max(8, BaseLength(Text(a[..], 0))) + 3 < a.Length
    requires |dir| >= ENTRIES * ENTRY_SIZE
    modifies a
    ensures Text(a[..], 0) == Converted(Taken(old(a[..])), "   ")
    ensures found <==>
      && old(Text(a[..], 0)) != [] && Text(a[..], 0)[0] != '/'
      && exists i :: 0 <= i < ENTRIES && InUse(dir, i) && EntryName(dir, i) == Text(a[..], 0)
  {
    ghost var taken := Taken(a[..]);
    TakenBase(a[..], Text(a[..], 0), taken);
    FsFntos2(a);
    found := SearchInDir(a[..], dir);
    if taken != [] {
      ConvertThenSearchIff(taken, dir);
    }
  }

  /** Two names that differ only in the case of base letters are converted, and so found, alike. */
  lemma BaseCaseNeverMatters(name: string, other: string, preset: string, dir: seq<char>)
    requires |dir| >= ENTRIES * ENTRY_SIZE && |name| == |other|
    requires forall i :: 0 <= i < BaseLength(name) ==> SameButCase(name[i], other[i])
    requires name[BaseLength(name)..] == other[BaseLength(name)..]
    ensures Converted(name, preset) == Converted(other, preset)
    ensures Found(Converted(name, preset), dir) <==> Found(Converted(other, preset), dir)
  {
    var d := BaseLength(name);
    forall k | d <= k < |name| ensures name[k] == other[k] {
      assert name[k] == name[d..][k - d] == other[d..][k - d] == other[k];
    }
    BaseLengthIs(other, d);
    SameUpperCase(name[..d], other[..d]);
    SameConversion(name, other, preset, d);
  }

  lemma SameUpperCase(a: string, b: string)
    requires |a| == |b| && forall i :: 0 <= i < |a| ==> SameButCase(a[i], b[i])
    ensures UpperAll(a) == UpperAll(b)
  {
  }

  lemma SameConversion(name: string, other: string, preset: string, d: nat)
    requires |name| == |other| && d == BaseLength(name) == BaseLength(other)
    requires UpperAll(name[..d]) == UpperAll(other[..d])
    requires forall k :: d <= k < |name| ==> name[k] == other[k]
    ensures Converted(name, preset) == Converted(other, preset)
  {
    assert ExtField(name, 0) == ExtField(other, 0);
    assert ExtField(name, 1) == ExtField(other, 1);
    assert ExtField(name, 2) == ExtField(other, 2);
  }

  lemma {:induction false} BaseLengthIs(name: string, d: nat)
    requires d <= |name| && (forall i :: 0 <= i < d ==> name[i] != '.') && (d < |name| ==> name[d] == '.')
    ensures BaseLength(name) == d
  {
    if d > 0 {
      BaseLengthIs(name[1..], d - 1);
    }
  }

  /**
   The scan in terms of the bytes of the directory: entry i starts at byte 32 * i; entries that start with NUL, 0xE5
   or a dot are passed over; a name of fewer than eleven characters only matches one filled up with NULs.
   */
  lemma FoundInBytes(name: string, dir: seq<char>)
    requires |dir| >= 16384 && NulFree(name)
    ensures Found(name, dir) <==>
      && 0 < |name| <= 11 && name[0] != '/'
      && exists i :: 0 <= i < 512 && MatchesAt(name, dir, 32 * i)
  {
    if Found(name, dir) {
      var i :| 0 <= i < ENTRIES && InUse(dir, i) && EntryName(dir, i) == Desired(name);
      MatchesIff(name, dir, i);
      assert MatchesAt(name, dir, 32 * i);
    }
    if 0 < |name| <= 11 && name[0] != '/' {
      forall i | 0 <= i < 512 && MatchesAt(name, dir, 32 * i) ensures Found(name, dir) {
        MatchesIff(name, dir, i);
      }
    }
  }

  ghost predicate MatchesAt(name: string, dir: seq<char>, at: int)
    requires |name| <= 11
  {
    && 0 <= at && at + 11 <= |dir|
    && dir[at] != '\0' && dir[at] != '\U{E5}' && dir[at] != '.'
    && FilledWithNuls(dir[at..at + 11], name)
  }

  /** A field that starts with a name and holds NULs behind it. */
  ghost predicate FilledWithNuls(field: string, name: string) {
    name <= field && forall k :: |name| <= k < |field| ==> field[k] == '\0'
  }

  lemma MatchesIff(name: string, dir: seq<char>, i: nat)
    requires |dir| >= 16384 && |name| <= 11 && i < 512
    ensures MatchesAt(name, dir, 32 * i) <==> InUse(dir, i) && EntryName(dir, i) == Desired(name)
  {
    FilledIff(EntryName(dir, i), name);
  }

  lemma FilledIff(field: string, name: string)
    requires |field| == 11 && |name| <= 11
    ensures FilledWithNuls(field, name) <==> field == Desired(name)
  {
    if FilledWithNuls(field, name) {
      assert field == field[..|name|] + field[|name|..];
    }
  }

}
