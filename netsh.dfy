/**
 * The parser for the text that `netsh wlan show interfaces` prints: the
 * output is cut into CRLF-separated lines, the first line and empty lines
 * are dropped, and each remaining line becomes a key (the stripped text
 * before its first colon) with an optional value (the stripped text after
 * the colon, present only when the line has exactly one colon).
 */
module Netsh {
  import opened Values

  const CRLF: string := "\r\n"
  const Colon: string := ":"

  /** Python's `str.isspace` for one character: what `str.strip()` removes. */
  predicate IsSpace(c: char)
  {
    || c == ' '
    || ('\t' <= c <= '\r')
    || ('\U{1c}' <= c <= '\U{1f}')
    || c == '\U{85}' || c == '\U{a0}' || c == '\U{1680}'
    || ('\U{2000}' <= c <= '\U{200a}')
    || c == '\U{2028}' || c == '\U{2029}' || c == '\U{202f}' || c == '\U{205f}' || c == '\U{3000}'
  }

  /** The first index at or after `i` that holds no whitespace (or `|s|`). */
  function SpaceEnd(s: string, i: nat): (j: nat)
    requires i <= |s|
    ensures i <= j <= |s|
    decreases |s| - i
  {
    if i < |s| && IsSpace(s[i]) then SpaceEnd(s, i + 1) else i
  }

  /** `SpaceEnd` skips only whitespace and stops at the first other character. */
  lemma {:induction false} SpaceEndSpec(s: string, i: nat)
    requires i <= |s|
    ensures forall k :: i <= k < SpaceEnd(s, i) ==> IsSpace(s[k])
    ensures SpaceEnd(s, i) < |s| ==> !IsSpace(s[SpaceEnd(s, i)])
    decreases |s| - i
  {
    if i < |s| && IsSpace(s[i]) {
      SpaceEndSpec(s, i + 1);
    }
  }

  /** The smallest `i >= lo` such that `s[i..j]` is all whitespace. */
  function SpaceStart(s: string, lo: nat, j: nat): (i: nat)
    requires lo <= j <= |s|
    ensures lo <= i <= j
    decreases j
  {
    if lo < j && IsSpace(s[j - 1]) then SpaceStart(s, lo, j - 1) else j
  }

  /** `SpaceStart` backs up over whitespace only and stops after a non-space (or at `lo`). */
  lemma {:induction false} SpaceStartSpec(s: string, lo: nat, j: nat)
    requires lo <= j <= |s|
    ensures forall k :: SpaceStart(s, lo, j) <= k < j ==> IsSpace(s[k])
    ensures lo < SpaceStart(s, lo, j) ==> !IsSpace(s[SpaceStart(s, lo, j) - 1])
    decreases j
  {
    if lo < j && IsSpace(s[j - 1]) {
      SpaceStartSpec(s, lo, j - 1);
    }
  }

  /**
   * `str.strip()`: the longest middle slice of `s` that neither starts nor
   * ends with whitespace, everything cut away being whitespace.
   */
  function Strip(s: string): string
  {
    var i := SpaceEnd(s, 0);
    var j := SpaceStart(s, i, |s|);
    s[i..j]
  }

  /** What `Strip` cuts away is whitespace, and what it keeps is bounded by non-spaces. */
  lemma StripSpec(s: string)
    ensures exists i, j :: 0 <= i <= j <= |s| && Strip(s) == s[i..j]
              && (forall k :: 0 <= k < i ==> IsSpace(s[k]))
              && (forall k :: j <= k < |s| ==> IsSpace(s[k]))
    ensures Strip(s) != [] ==> !IsSpace(Strip(s)[0]) && !IsSpace(Strip(s)[|Strip(s)| - 1])
  {
    var i := SpaceEnd(s, 0);
    var j := SpaceStart(s, i, |s|);
    SpaceEndSpec(s, 0);
    SpaceStartSpec(s, i, |s|);
    assert Strip(s) == s[i..j];
  }

  /** `sep` occurs in `s` starting at index `i`. */
  predicate OccursAt(s: string, sep: string, i: int)
  {
    0 <= i && i + |sep| <= |s| && s[i..i + |sep|] == sep
  }

  /** A one-character separator occurs exactly where that character stands. */
  lemma OccursAtCharAt(s: string, c: char, j: nat)
    requires j < |s|
    ensures OccursAt(s, [c], j) <==> s[j] == c
  {
    assert s[j..j + 1] == [s[j]];
  }

  /** Occurrences inside a slice are occurrences in the whole text. */
  lemma SliceOccurrence(s: string, sep: string, a: nat, b: nat)
    requires a <= b <= |s|
    ensures forall j :: OccursAt(s[a..b], sep, j) ==> OccursAt(s, sep, a + j)
  {
    forall j | OccursAt(s[a..b], sep, j)
      ensures OccursAt(s, sep, a + j)
    {
      var inner, outer := s[a..b][j..j + |sep|], s[a + j..a + j + |sep|];
      forall m | 0 <= m < |sep|
        ensures inner[m] == outer[m]
      {
      }
      assert inner == outer;
    }
  }

  /** The first occurrence of `sep` in `s` at or after index `k`, if any. */
  function FindFrom(s: string, sep: string, k: nat): (r: Option<nat>)
    requires sep != [] && k <= |s|
    ensures r.Some? ==> k <= r.value && r.value + |sep| <= |s|
    decreases |s| - k
  {
    if k + |sep| > |s| then None
    else if OccursAt(s, sep, k) then Some(k)
    else FindFrom(s, sep, k + 1)
  }

  /** The search finds the first occurrence at or after `k`, and reports none only when there is none. */
  lemma {:induction false} FindFromSpec(s: string, sep: string, k: nat)
    requires sep != [] && k <= |s|
    ensures var r := FindFrom(s, sep, k);
            && (r.Some? ==> OccursAt(s, sep, r.value) && forall j :: k <= j < r.value ==> !OccursAt(s, sep, j))
            && (r.None? ==> forall j :: k <= j ==> !OccursAt(s, sep, j))
    decreases |s| - k
  {
    if k + |sep| <= |s| && !OccursAt(s, sep, k) {
      FindFromSpec(s, sep, k + 1);
    }
  }

  /** What the search reports is an occurrence. */
  lemma {:induction false} FindFromHit(s: string, sep: string, k: nat, i: nat)
    requires sep != [] && k <= |s| && FindFrom(s, sep, k) == Some(i)
    ensures i + |sep| <= |s| && s[i..i + |sep|] == sep
    decreases |s| - k
  {
    if !OccursAt(s, sep, k) {
      FindFromHit(s, sep, k + 1, i);
    }
  }

  /** The pieces of `s[k..]` between occurrences of `sep`. */
  function SplitFrom(s: string, sep: string, k: nat): (r: seq<string>)
    requires sep != [] && k <= |s|
    ensures |r| >= 1
    decreases |s| - k
  {
    match FindFrom(s, sep, k)
    case None => [s[k..]]
    case Some(i) => [s[k..i]] + SplitFrom(s, sep, i + |sep|)
  }

  /** `s.split(sep)` for a non-empty separator. */
  function Split(s: string, sep: string): (r: seq<string>)
    requires sep != []
    ensures |r| >= 1
  {
    SplitFrom(s, sep, 0)
  }

  /** `sep.join(parts)`. */
  function Join(parts: seq<string>, sep: string): string
    requires |parts| >= 1
  {
    if |parts| == 1 then parts[0] else parts[0] + sep + Join(parts[1..], sep)
  }

  /** Joining a first piece onto the rest puts one separator between them. */
  lemma JoinCons(p: string, rest: seq<string>, sep: string)
    requires |rest| >= 1
    ensures Join([p] + rest, sep) == p + sep + Join(rest, sep)
  {
    assert ([p] + rest)[1..] == rest;
  }

  lemma {:induction false} SplitFromJoin(s: string, sep: string, k: nat)
    requires sep != [] && k <= |s|
    ensures Join(SplitFrom(s, sep, k), sep) == s[k..]
    decreases |s| - k
  {
    var r := FindFrom(s, sep, k);
    if r.None? {
      SplitFromMissing(s, sep, k);
    } else {
      var i := r.value;
      var next := i + |sep|;
      FindFromHit(s, sep, k, i);
      SplitFromFound(s, sep, k, i, next);
      SplitFromJoin(s, sep, next);
      JoinCons(s[k..i], SplitFrom(s, sep, next), sep);
      assert s[k..] == s[k..i] + s[i..next] + s[next..];
    }
  }

  /** Joining the pieces with the separator gives back the text. */
  lemma SplitJoin(s: string, sep: string)
    requires sep != []
    ensures Join(Split(s, sep), sep) == s
  {
    SplitFromJoin(s, sep, 0);
  }

  lemma {:induction false} SplitFromPiecesFree(s: string, sep: string, k: nat)
    requires sep != [] && k <= |s|
    ensures forall p, j :: p in SplitFrom(s, sep, k) ==> !OccursAt(p, sep, j)
    decreases |s| - k
  {
    FindFromSpec(s, sep, k);
    match FindFrom(s, sep, k)
    case None =>
      SliceOccurrence(s, sep, k, |s|);
      assert s[k..] == s[k..|s|];
    case Some(i) =>
      SplitFromPiecesFree(s, sep, i + |sep|);
      SliceOccurrence(s, sep, k, i);
  }

  /** No piece contains the separator. */
  lemma SplitPiecesFree(s: string, sep: string)
    requires sep != []
    ensures forall p, j :: p in Split(s, sep) ==> !OccursAt(p, sep, j)
  {
    SplitFromPiecesFree(s, sep, 0);
  }

  /** An occurrence in a suffix is an occurrence in the whole text, shifted by the cut. */
  lemma OccursDrop(s: string, sep: string, d: nat, j: nat)
    requires d <= |s|
    ensures OccursAt(s[d..], sep, j) <==> OccursAt(s, sep, d + j)
  {
    if d + j + |sep| <= |s| {
      assert s[d..][j..j + |sep|] == s[d + j..d + j + |sep|];
    }
  }

  /** Searching a suffix is searching the whole text from the cut on. */
  lemma {:induction false} FindDrop(s: string, sep: string, d: nat, k: nat)
    requires sep != [] && d <= |s| && k <= |s| - d
    ensures FindFrom(s[d..], sep, k).None? ==> FindFrom(s, sep, d + k).None?
    ensures FindFrom(s[d..], sep, k).Some? ==>
              FindFrom(s, sep, d + k) == Some(d + FindFrom(s[d..], sep, k).value)
    decreases |s| - d - k
  {
    OccursDrop(s, sep, d, k);
    if k + |sep| <= |s| - d && !OccursAt(s[d..], sep, k) {
      FindDrop(s, sep, d, k + 1);
    }
  }

  /** One step of `SplitFrom`, spelled out for the case where `sep` is found at `i`. */
  lemma SplitFromFound(s: string, sep: string, k: nat, i: nat, next: nat)
    requires sep != [] && k <= |s| && FindFrom(s, sep, k) == Some(i) && next == i + |sep|
    ensures k <= i && next <= |s|
    ensures SplitFrom(s, sep, k) == [s[k..i]] + SplitFrom(s, sep, next)
  {
  }

  /** `SplitFrom` when `sep` is not found: the rest is the single piece. */
  lemma SplitFromMissing(s: string, sep: string, k: nat)
    requires sep != [] && k <= |s| && FindFrom(s, sep, k).None?
    ensures SplitFrom(s, sep, k) == [s[k..]]
  {
  }

  lemma SliceDrop(s: string, d: nat, a: nat, b: nat)
    requires d <= |s| && a <= b <= |s| - d
    ensures s[d..][a..b] == s[d + a..d + b] && s[d..][a..] == s[d + a..]
  {
  }

  /** Splitting a suffix gives the pieces of the whole text from the cut on. */
  lemma {:induction false} SplitDrop(s: string, sep: string, d: nat, k: nat)
    requires sep != [] && d <= |s| && k <= |s| - d
    ensures SplitFrom(s, sep, d + k) == SplitFrom(s[d..], sep, k)
    decreases |s| - d - k
  {
    var q := s[d..];
    FindDrop(s, sep, d, k);
    var r := FindFrom(q, sep, k);
    if r.None? {
      SliceDrop(s, d, k, |q|);
      SplitFromMissing(q, sep, k);
      SplitFromMissing(s, sep, d + k);
    } else {
      var next := r.value + |sep|;
      SplitDrop(s, sep, d, next);
      SplitDropStep(s, sep, d, k, r.value, next);
    }
  }

  /** One piece of `SplitDrop`: equal rests after a shared occurrence give equal splits. */
  lemma SplitDropStep(s: string, sep: string, d: nat, k: nat, i: nat, next: nat)
    requires sep != [] && d <= |s| && k <= |s| - d
    requires FindFrom(s[d..], sep, k) == Some(i) && next == i + |sep|
    requires FindFrom(s, sep, d + k) == Some(d + i)
    requires SplitFrom(s, sep, d + next) == SplitFrom(s[d..], sep, next)
    ensures SplitFrom(s, sep, d + k) == SplitFrom(s[d..], sep, k)
  {
    SplitFromFound(s[d..], sep, k, i, next);
    SplitFromFound(s, sep, d + k, d + i, d + next);
    SliceDrop(s, d, k, i);
  }

  function Count(s: string, c: char): nat
  {
    if s == [] then 0 else (if s[0] == c then 1 else 0) + Count(s[1..], c)
  }

  lemma {:induction false} CountAppend(a: string, b: string, c: char)
    ensures Count(a + b, c) == Count(a, c) + Count(b, c)
  {
    if a != [] {
      assert (a + b)[0] == a[0];
      assert (a + b)[1..] == a[1..] + b;
      CountAppend(a[1..], b, c);
    } else {
      assert a + b == b;
    }
  }

  lemma {:induction false} CountAbsent(s: string, c: char)
    requires forall j :: 0 <= j < |s| ==> s[j] != c
    ensures Count(s, c) == 0
  {
    if s != [] {
      assert forall j :: 0 <= j < |s| - 1 ==> s[1..][j] == s[j + 1];
      CountAbsent(s[1..], c);
    }
  }

  /** For a one-character separator, the search finds the first `c` at or after `k`. */
  lemma FindCharFrom(s: string, c: char, k: nat)
    requires k <= |s|
    ensures var r := FindFrom(s, [c], k);
            && (r.Some? ==> r.value < |s| && s[r.value] == c && forall j :: k <= j < r.value ==> s[j] != c)
            && (r.None? ==> forall j :: k <= j < |s| ==> s[j] != c)
  {
    FindFromSpec(s, [c], k);
    forall j | k <= j < |s|
      ensures OccursAt(s, [c], j) <==> s[j] == c
    {
      OccursAtCharAt(s, c, j);
    }
  }

  /** A suffix without `c` counts none. */
  lemma CountAbsentFrom(s: string, c: char, k: nat)
    requires k <= |s| && forall j :: k <= j < |s| ==> s[j] != c
    ensures Count(s[k..], c) == 0
  {
    CountAbsent(s[k..], c);
  }

  /** Counting from `k` past a run without `c` that ends in a `c` at `i`. */
  lemma CountThroughFirst(s: string, c: char, k: nat, i: nat)
    requires k <= i < |s| && s[i] == c && forall j :: k <= j < i ==> s[j] != c
    ensures Count(s[k..], c) == Count(s[i + 1..], c) + 1
  {
    var run := s[k..i];
    CountAbsent(run, c);
    assert s[k..] == run + [c] + s[i + 1..];
    CountAppend(run, [c], c);
    CountAppend(run + [c], s[i + 1..], c);
    assert [c][1..] == [];
  }

  lemma {:induction false} SplitFromCharCount(s: string, c: char, k: nat)
    requires k <= |s|
    ensures |SplitFrom(s, [c], k)| == Count(s[k..], c) + 1
    decreases |s| - k
  {
    FindCharFrom(s, c, k);
    var r := FindFrom(s, [c], k);
    if r.None? {
      SplitFromMissing(s, [c], k);
      CountAbsentFrom(s, c, k);
    } else {
      var i := r.value;
      SplitFromFound(s, [c], k, i, i + 1);
      SplitFromCharCount(s, c, i + 1);
      CountThroughFirst(s, c, k, i);
    }
  }

  /** Splitting on one character gives one more piece than it has occurrences. */
  lemma SplitCharCount(s: string, c: char)
    ensures |Split(s, [c])| == Count(s, c) + 1
  {
    SplitFromCharCount(s, c, 0);
    assert s[0..] == s;
  }

  /** `[line for line in lines if line]`. */
  function NonEmpty(lines: seq<string>): seq<string>
  {
    if lines == [] then []
    else if lines[0] == "" then NonEmpty(lines[1..])
    else [lines[0]] + NonEmpty(lines[1..])
  }

  /** The kept lines are exactly the non-empty ones, and there are no more of them. */
  lemma {:induction false} NonEmptyMembers(lines: seq<string>)
    ensures forall l :: l in NonEmpty(lines) <==> l in lines && l != ""
    ensures |NonEmpty(lines)| <= |lines|
  {
    if lines != [] {
      NonEmptyMembers(lines[1..]);
      assert lines == [lines[0]] + lines[1..];
    }
  }

  /** Filtering one line keeps it exactly when it is non-empty. */
  lemma NonEmptySingle(l: string)
    ensures NonEmpty([l]) == if l == "" then [] else [l]
  {
    assert [l][1..] == [];
  }

  /** The filter works line by line: it keeps the order and the repeats of its input. */
  lemma {:induction false} NonEmptyAppend(a: seq<string>, b: seq<string>)
    ensures NonEmpty(a + b) == NonEmpty(a) + NonEmpty(b)
  {
    if a == [] {
      assert a + b == b;
    } else {
      assert (a + b)[0] == a[0];
      assert (a + b)[1..] == a[1..] + b;
      NonEmptyAppend(a[1..], b);
    }
  }

  /** The lines that contribute entries: non-empty, after the first. */
  function Lines(output: string): seq<string>
  {
    NonEmpty(Split(output, CRLF)[1..])
  }

  /** The key of a line: the stripped text before its first colon. */
  function Key(line: string): string
  {
    Strip(Split(line, Colon)[0])
  }

  /** The value of a line: the stripped text after the colon, when there is exactly one. */
  function Field(line: string): Option<string>
  {
    var parts := Split(line, Colon);
    if |parts| == 2 then Some(Strip(parts[1])) else None
  }

  /** The dictionary built by inserting each line's entry in turn. */
  function Info(lines: seq<string>): map<string, Option<string>>
  {
    if lines == [] then map[]
    else
      var last := lines[|lines| - 1];
      Info(lines[..|lines| - 1])[Key(last) := Field(last)]
  }

  function NetshInfo(output: string): map<string, Option<string>>
  {
    Info(Lines(output))
  }

  /** `decode_netsh_output` on already-decoded text. */
  method DecodeNetshOutput(output: string) returns (info: map<string, Option<string>>)
    ensures info == NetshInfo(output)
  {
    var lines := Split(output, CRLF)[1..];
    lines := NonEmpty(lines);
    var pieces := seq(|lines|, i requires 0 <= i < |lines| => Split(lines[i], Colon));
    info := map[];
    for i := 0 to |pieces|
      invariant info == Info(lines[..i])
    {
      var parts := pieces[i];
      if |parts| == 2 {
        info := info[Strip(parts[0]) := Some(Strip(parts[1]))];
      } else {
        info := info[Strip(parts[0]) := None];
      }
      assert lines[..i + 1][..i] == lines[..i];
    }
    assert lines[..|pieces|] == lines;
  }

  /** Every key comes from some line, and every line contributes its key. */
  lemma {:induction false} InfoKeys(lines: seq<string>)
    ensures forall k :: k in Info(lines) <==> exists i :: 0 <= i < |lines| && Key(lines[i]) == k
  {
    if lines != [] {
      var init := lines[..|lines| - 1];
      InfoKeys(init);
      assert forall i :: 0 <= i < |init| ==> init[i] == lines[i];
    }
  }

  /** Line `i` carries key `k` and no later line does. */
  predicate LastWith(lines: seq<string>, k: string, i: int)
  {
    0 <= i < |lines| && Key(lines[i]) == k && forall j :: i < j < |lines| ==> Key(lines[j]) != k
  }

  /** A last line for `k` stays the last one when a line with another key is appended. */
  lemma LastWithExtend(lines: seq<string>, k: string, i: int)
    requires |lines| >= 1 && LastWith(lines[..|lines| - 1], k, i) && Key(lines[|lines| - 1]) != k
    ensures LastWith(lines, k, i)
  {
    var init := lines[..|lines| - 1];
    forall j | i < j < |lines|
      ensures Key(lines[j]) != k
    {
      if j < |lines| - 1 {
        assert lines[j] == init[j];
      }
    }
  }

  /** One step of `Info`: the entry of the last line overrides the rest. */
  lemma InfoStep(lines: seq<string>)
    requires |lines| >= 1
    ensures Info(lines) == Info(lines[..|lines| - 1])[Key(lines[|lines| - 1]) := Field(lines[|lines| - 1])]
  {
  }

  /** The last line carrying key `k` is the one whose value the dictionary keeps. */
  lemma {:induction false} LastLineFor(lines: seq<string>, k: string)
    requires k in Info(lines)
    ensures exists i :: LastWith(lines, k, i) && Info(lines)[k] == Field(lines[i])
  {
    var n := |lines|;
    var init := lines[..n - 1];
    InfoStep(lines);
    if Key(lines[n - 1]) == k {
      assert LastWith(lines, k, n - 1);
    } else {
      LastLineFor(init, k);
      var i :| LastWith(init, k, i) && Info(init)[k] == Field(init[i]);
      LastWithExtend(lines, k, i);
      assert lines[i] == init[i];
    }
  }

  /**
   * The keys of the result are exactly the keys of the non-empty lines after
   * the first CRLF-separated line.
   */
  lemma NetshKeys(output: string)
    ensures var raw := Split(output, CRLF);
            forall k :: k in NetshInfo(output) <==>
              exists i :: 1 <= i < |raw| && raw[i] != "" && Key(raw[i]) == k
  {
    var raw := Split(output, CRLF);
    var lines := Lines(output);
    InfoKeys(lines);
    NonEmptyMembers(raw[1..]);
    forall k
      ensures k in NetshInfo(output) <==> exists i :: 1 <= i < |raw| && raw[i] != "" && Key(raw[i]) == k
    {
      if k in NetshInfo(output) {
        var j :| 0 <= j < |lines| && Key(lines[j]) == k;
        assert lines[j] in lines;
        var i :| 0 <= i < |raw[1..]| && raw[1..][i] == lines[j];
        assert raw[i + 1] == lines[j];
      }
      if exists i :: 1 <= i < |raw| && raw[i] != "" && Key(raw[i]) == k {
        var i :| 1 <= i < |raw| && raw[i] != "" && Key(raw[i]) == k;
        assert raw[1..][i - 1] == raw[i];
        assert raw[i] in lines;
        var j :| 0 <= j < |lines| && lines[j] == raw[i];
      }
    }
  }

  /** A key is the stripped text before the line's first colon (the whole line when it has none). */
  lemma KeyBeforeFirstColon(line: string)
    ensures exists i :: 0 <= i <= |line| && Key(line) == Strip(line[..i])
              && (forall j :: 0 <= j < i ==> line[j] != ':')
              && (i < |line| ==> line[i] == ':')
  {
    assert Colon == [':'];
    FindFromSpec(line, Colon, 0);
    match FindFrom(line, Colon, 0)
    case None =>
      forall j | 0 <= j < |line|
        ensures line[j] != ':'
      {
        OccursAtCharAt(line, ':', j);
      }
      assert line[..|line|] == line;
      assert Key(line) == Strip(line[..|line|]);
    case Some(i) =>
      SplitFromFound(line, Colon, 0, i, i + 1);
      forall j | 0 <= j < i
        ensures line[j] != ':'
      {
        OccursAtCharAt(line, ':', j);
      }
      OccursAtCharAt(line, ':', i);
      assert line[0..i] == line[..i];
      assert Key(line) == Strip(line[..i]);
  }

  /** A key's value is that of the last line carrying the key. */
  lemma InfoLastWins(lines: seq<string>)
    ensures forall k :: k in Info(lines) ==>
              exists i :: LastWith(lines, k, i) && Info(lines)[k] == Field(lines[i])
  {
    forall k | k in Info(lines)
      ensures exists i :: LastWith(lines, k, i) && Info(lines)[k] == Field(lines[i])
    {
      LastLineFor(lines, k);
    }
  }

  /** A line has a value exactly when it has one colon, and then it is the stripped rest. */
  lemma FieldOneColon(line: string)
    ensures Field(line).Some? <==> Count(line, ':') == 1
    ensures Field(line).Some? ==> Field(line).value == Strip(Split(line, Colon)[1])
  {
    SplitCharCount(line, ':');
  }

  /** Output without a CRLF has no lines after the first, so no entries. */
  lemma NoLineBreakNoInfo(output: string)
    requires forall j :: !OccursAt(output, CRLF, j)
    ensures NetshInfo(output) == map[]
  {
    FindFromSpec(output, CRLF, 0);
    assert Split(output, CRLF) == [output[0..]];
  }

  /** Whatever precedes the first CRLF contributes nothing. */
  lemma HeaderIgnored(header: string, rest: string)
    requires forall j :: !OccursAt(header, CRLF, j)
    ensures NetshInfo(header + CRLF + rest) == Info(NonEmpty(Split(rest, CRLF)))
  {
    var s := header + CRLF + rest;
    var h := |header|;
    assert s[h..h + 2] == CRLF;
    forall j | 0 <= j < h
      ensures !OccursAt(s, CRLF, j)
    {
      if j + 2 <= h {
        assert s[j..j + 2] == header[j..j + 2];
        assert !OccursAt(header, CRLF, j);
      } else {
        assert s[j..j + 2][1] == s[h] == '\r';
      }
    }
    assert OccursAt(s, CRLF, h);
    FindFromSpec(s, CRLF, 0);
    assert FindFrom(s, CRLF, 0) == Some(h);
    SplitFromFound(s, CRLF, 0, h, h + 2);
    assert s[0..h] == header;
    assert s[h + 2..] == rest;
    SplitDrop(s, CRLF, h + 2, 0);
    assert Split(s, CRLF) == [header] + Split(rest, CRLF);
  }
}
