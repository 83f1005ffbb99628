/**
 * Retention pruning after a successful export (`removeOldBackupFiles`): the
 * directory listing is filtered by the snapshot pattern of the database, and
 * when there are more snapshots than the history allows, the oldest surplus
 * ones are unlinked, each attempt independent of the others.
 *
 * The directory is the listing it yields, one `File` per entry with the
 * modification time `statSync` reports; whether an unlink succeeds is the
 * parameter `unlinkOk`.
 */
module Retention {
  import opened JsText

  /** One directory entry: its name and its modification time in milliseconds. */
  datatype File = File(name: string, mtime: int)

  /** The literal part of the snapshot pattern of `database` (app.js:68): the name followed by `_backup`. */
  function Pattern(database: string): string {
    database + "_backup"
  }

  /** From index `k` on, `json` occurs with no line terminator before it: what `.*json` matches. */
  ghost predicate JsonFollows(name: string, k: int)
    requires 0 <= k <= |name|
  {
    exists j :: OccursAt(name, "json", j) && k <= j && NoLineTerminator(name, k, j)
  }

  /** The regular expression matches with its literal `p` starting at index `a`. */
  ghost predicate MatchAt(name: string, p: string, a: int) {
    OccursAt(name, p, a) && JsonFollows(name, a + |p|)
  }

  /**
   * What the regular expression means: `<database>_backup` occurs somewhere,
   * `json` occurs at or after its end, and no line terminator lies between.
   */
  ghost predicate PatternMatches(database: string, name: string) {
    exists a :: MatchAt(name, Pattern(database), a)
  }

  /** `json` occurs at some index from `k` on, with no line terminator before it. */
  function JsonAhead(name: string, k: nat): bool
    requires k <= |name|
    decreases |name| - k
  {
    if k + 4 > |name| then false
    else if name[k..k + 4] == "json" then true
    else if IsLineTerminator(name[k]) then false
    else JsonAhead(name, k + 1)
  }

  /** The search of `file.match(re)` from index `i` on: the first place where the pattern and then `json` follow. */
  function MatchFrom(name: string, p: string, i: nat): bool
    requires p != [] && i <= |name|
    decreases |name| - i
  {
    if i + |p| > |name| then false
    else if name[i..i + |p|] == p && JsonAhead(name, i + |p|) then true
    else MatchFrom(name, p, i + 1)
  }

  /** The filter's test on one file name (app.js:68-69): the snapshot pattern of `database` matches somewhere in it. */
  predicate Matches(database: string, name: string) {
    MatchFrom(name, Pattern(database), 0)
  }

  lemma {:induction false} JsonAheadIff(name: string, k: nat)
    requires k <= |name|
    ensures JsonAhead(name, k) <==> JsonFollows(name, k)
    decreases |name| - k
  {
    if k + 4 > |name| {
    } else if name[k..k + 4] == "json" {
      assert OccursAt(name, "json", k) && NoLineTerminator(name, k, k);
    } else if IsLineTerminator(name[k]) {
    } else {
      JsonAheadIff(name, k + 1);
      if JsonFollows(name, k) {
        var j :| OccursAt(name, "json", j) && k <= j && NoLineTerminator(name, k, j);
        assert j != k;
        assert NoLineTerminator(name, k + 1, j);
      }
      if JsonAhead(name, k + 1) {
        var j :| OccursAt(name, "json", j) && k + 1 <= j && NoLineTerminator(name, k + 1, j);
        assert NoLineTerminator(name, k, j);
      }
    }
  }

  lemma {:induction false} MatchFromIff(name: string, p: string, i: nat)
    requires p != [] && i <= |name|
    ensures MatchFrom(name, p, i) <==> exists a :: i <= a && MatchAt(name, p, a)
    decreases |name| - i
  {
    if i + |p| > |name| {
    } else {
      JsonAheadIff(name, i + |p|);
      MatchFromIff(name, p, i + 1);
      if name[i..i + |p|] == p && JsonAhead(name, i + |p|) {
        assert MatchAt(name, p, i);
      }
      if exists a :: i <= a && MatchAt(name, p, a) {
        var a :| i <= a && MatchAt(name, p, a);
        if a == i {
          assert JsonAhead(name, i + |p|);
        } else {
          assert i + 1 <= a;
        }
      }
    }
  }

  /** The scanner agrees with the regular expression it stands for. */
  lemma MatchesIffPattern(database: string, name: string)
    ensures Matches(database, name) <==> PatternMatches(database, name)
  {
    MatchFromIff(name, Pattern(database), 0);
  }

  /** The entries of the backup directory whose names match the snapshot pattern, in listing order (app.js:69). */
  function Candidates(database: string, listing: seq<File>): (c: seq<File>)
    ensures forall f :: multiset(c)[f] == if Matches(database, f.name) then multiset(listing)[f] else 0
    ensures forall f :: f in c <==> f in listing && Matches(database, f.name)
  {
    if listing == [] then []
    else
      assert listing == [listing[0]] + listing[1..];
      (if Matches(database, listing[0].name) then [listing[0]] else []) + Candidates(database, listing[1..])
  }

  /** Ascending by modification time, the order the sort's comparator asks for (app.js:72-74). */
  ghost predicate SortedByMtime(s: seq<File>) {
    forall i, j :: 0 <= i < j < |s| ==> s[i].mtime <= s[j].mtime
  }

  method Swap(a: array<File>, i: int, j: int)
    requires 0 <= i < a.Length && 0 <= j < a.Length
    modifies a
    ensures a[i] == old(a[j]) && a[j] == old(a[i])
    ensures forall m :: 0 <= m < a.Length && m != i && m != j ==> a[m] == old(a[m])
    ensures multiset(a[..]) == old(multiset(a[..]))
  {
    a[i], a[j] := a[j], a[i];
  }

  /** The in-place sort of the candidates by modification time (app.js:72-74); the order of equal times is left open. */
  method SortByMtime(a: array<File>)
    modifies a
    ensures SortedByMtime(a[..])
    ensures multiset(a[..]) == old(multiset(a[..]))
  {
    var i := 0;
    while i < a.Length
      invariant 0 <= i <= a.Length
      invariant SortedByMtime(a[..i])
      invariant multiset(a[..]) == old(multiset(a[..]))
    {
      var j := i;
      while j > 0 && a[j - 1].mtime > a[j].mtime
        invariant 0 <= j <= i
        invariant forall p, q :: 0 <= p < q <= i && p != j && q != j ==> a[p].mtime <= a[q].mtime
        invariant forall q :: j < q <= i ==> a[j].mtime <= a[q].mtime
        invariant multiset(a[..]) == old(multiset(a[..]))
      {
        Swap(a, j - 1, j);
        j := j - 1;
      }
      i := i + 1;
    }
    assert a[..] == a[..a.Length];
  }

  /** The files among `attempted` whose unlink succeeded, in the order they were attempted. */
  function Succeeded(attempted: seq<File>, unlinkOk: string -> bool): (d: seq<File>)
    ensures forall f :: f in d <==> f in attempted && unlinkOk(f.name)
    ensures forall f :: multiset(d)[f] == if unlinkOk(f.name) then multiset(attempted)[f] else 0
  {
    if attempted == [] then []
    else
      var last := attempted[|attempted| - 1];
      assert attempted == attempted[..|attempted| - 1] + [last];
      Succeeded(attempted[..|attempted| - 1], unlinkOk) + if unlinkOk(last.name) then [last] else []
  }

  /** Attempting one more file extends the successes by that file exactly when its unlink succeeds. */
  lemma SucceededSnoc(attempted: seq<File>, file: File, unlinkOk: string -> bool)
    ensures Succeeded(attempted + [file], unlinkOk) == Succeeded(attempted, unlinkOk) + if unlinkOk(file.name) then [file] else []
  {
    assert (attempted + [file])[..|attempted|] == attempted;
  }

  /**
   * What one pruning pass must choose: nothing unless `0 < history < count`;
   * otherwise `count - history` of the candidates, every one of them no newer
   * than any candidate left standing.
   */
  ghost predicate OldestSelected(candidates: seq<File>, history: int, attempted: seq<File>) {
    if 0 < history < |candidates| then
      && |attempted| == |candidates| - history
      && multiset(attempted) <= multiset(candidates)
      && forall a, k :: a in attempted && k in multiset(candidates) - multiset(attempted) ==> a.mtime <= k.mtime
    else
      attempted == []
  }

  /** The first `d` files of a sorted permutation of `c` are a sub-multiset of `c` no newer than the rest. */
  lemma SortedPrefixIsOldest(s: seq<File>, c: seq<File>, d: nat)
    requires SortedByMtime(s) && multiset(s) == multiset(c) && d <= |s|
    ensures multiset(s[..d]) <= multiset(c)
    ensures multiset(c) - multiset(s[..d]) == multiset(s[d..])
    ensures forall a, k :: a in s[..d] && k in multiset(c) - multiset(s[..d]) ==> a.mtime <= k.mtime
  {
    assert s == s[..d] + s[d..];
    assert multiset(s) == multiset(s[..d]) + multiset(s[d..]);
    forall a, k | a in s[..d] && k in multiset(s[d..])
      ensures a.mtime <= k.mtime
    {
      var x :| 0 <= x < d && s[x] == a;
      assert k in s[d..];
      var y :| 0 <= y < |s| - d && s[d..][y] == k;
      assert s[d + y] == k;
    }
  }

  /** Pruning a sorted permutation of the candidates by its first `count - history` files meets `OldestSelected`. */
  lemma SortedPrefixSelected(candidates: seq<File>, history: int, sorted: seq<File>)
    requires 0 < history < |candidates|
    requires SortedByMtime(sorted) && multiset(sorted) == multiset(candidates)
    ensures |sorted| == |candidates|
    ensures OldestSelected(candidates, history, sorted[..|candidates| - history])
    ensures SortedByMtime(sorted[..|candidates| - history])
  {
    assert |sorted| == |multiset(sorted)| == |multiset(candidates)| == |candidates|;
    SortedPrefixIsOldest(sorted, candidates, |candidates| - history);
  }

  /** The loop over the selected files (app.js:76-85): one unlink attempt per file, in order, none skipped. */
  method UnlinkEach(selected: seq<File>, unlinkOk: string -> bool) returns (attempted: seq<File>, deleted: seq<File>)
    ensures attempted == selected
    ensures deleted == Succeeded(selected, unlinkOk)
  {
    attempted, deleted := [], [];
    var i := 0;
    while i < |selected|
      invariant 0 <= i <= |selected|
      invariant attempted == selected[..i]
      invariant deleted == Succeeded(attempted, unlinkOk)
    {
      var file := selected[i];
      assert selected[..i + 1] == selected[..i] + [file];
      SucceededSnoc(attempted, file, unlinkOk);
      attempted := attempted + [file];
      if unlinkOk(file.name) {
        deleted := deleted + [file];
      }
      i := i + 1;
    }
    assert selected[..i] == selected;
  }

  /**
   * `removeOldBackupFiles(database, history)` run against a listing: returns
   * the files whose unlink was attempted, oldest first, and those whose
   * unlink succeeded. Every selected file is attempted, whatever happened to
   * the ones before it.
   */
  method RemoveOldBackupFiles(database: string, history: int, listing: seq<File>, unlinkOk: string -> bool)
    returns (attempted: seq<File>, deleted: seq<File>)
    ensures OldestSelected(Candidates(database, listing), history, attempted)
    ensures SortedByMtime(attempted)
    ensures deleted == Succeeded(attempted, unlinkOk)
  {
    var candidates := Candidates(database, listing);
    attempted, deleted := [], [];
    if history > 0 && history < |candidates| {
      var files := new File[|candidates|](i requires 0 <= i < |candidates| => candidates[i]);
      assert files[..] == candidates;
      SortByMtime(files);
      var deleteCount := files.Length - history;
      SortedPrefixSelected(candidates, history, files[..]);
      assert files[..deleteCount] == files[..][..deleteCount];
      attempted, deleted := UnlinkEach(files[..deleteCount], unlinkOk);
    }
  }

  /** A pass leaves exactly `history` candidates standing when it prunes, and all of them when it does not. */
  lemma PruneKeepsHistory(candidates: seq<File>, history: int, attempted: seq<File>)
    requires OldestSelected(candidates, history, attempted)
    ensures 0 < history < |candidates| ==> |multiset(candidates) - multiset(attempted)| == history
    ensures !(0 < history < |candidates|) ==> multiset(candidates) - multiset(attempted) == multiset(candidates)
  {
  }

  /** Taking away a sub-multiset takes away its size. */
  lemma SubtractSize(whole: multiset<File>, part: multiset<File>)
    requires part <= whole
    ensures |whole - part| == |whole| - |part|
  {
    assert whole == (whole - part) + part;
  }

  /**
   * What a pass leaves in the directory: every unlink that fails keeps one
   * file beyond `history`, so when every unlink succeeds exactly `history`
   * candidates remain, and all of them when the pass does not prune.
   */
  lemma PruneLeavesHistory(candidates: seq<File>, history: int, attempted: seq<File>, unlinkOk: string -> bool)
    requires OldestSelected(candidates, history, attempted)
    ensures var deleted := Succeeded(attempted, unlinkOk);
      var left := multiset(candidates) - multiset(deleted);
      && |deleted| <= |attempted|
      && (0 < history < |candidates| ==> |left| == history + (|attempted| - |deleted|))
      && (!(0 < history < |candidates|) ==> left == multiset(candidates))
      && ((forall f :: f in attempted ==> unlinkOk(f.name)) && 0 < history < |candidates| ==> |left| == history)
  {
    var deleted := Succeeded(attempted, unlinkOk);
    assert multiset(deleted) <= multiset(attempted);
    SubtractSize(multiset(attempted), multiset(deleted));
    if 0 < history < |candidates| {
      SubtractSize(multiset(candidates), multiset(deleted));
      SubtractSize(multiset(candidates), multiset(attempted));
    }
    if forall f :: f in attempted ==> unlinkOk(f.name) {
      assert multiset(deleted) == multiset(attempted);
    }
  }

  /** Only candidates are ever unlinked: the files of the listing that do not match the pattern are never touched. */
  lemma OnlyCandidatesAttempted(database: string, history: int, listing: seq<File>, attempted: seq<File>)
    requires OldestSelected(Candidates(database, listing), history, attempted)
    ensures forall f :: f in attempted ==> f in listing && Matches(database, f.name)
  {
  }

  /** No two candidates share a modification time. */
  ghost predicate DistinctMtimes(s: seq<File>) {
    forall i, j :: 0 <= i < j < |s| ==> s[i].mtime != s[j].mtime
  }

  /** A non-empty multiset of files has one no newer than all the others. */
  lemma {:induction false} OldestOf(m: multiset<File>) returns (k: File)
    requires |m| > 0
    ensures k in m && forall x :: x in m ==> k.mtime <= x.mtime
    decreases |m|
  {
    var x :| x in m;
    var rest := m - multiset{x};
    assert m == rest + multiset{x};
    if |rest| == 0 {
      k := x;
    } else {
      var r := OldestOf(rest);
      k := if x.mtime < r.mtime then x else r;
      forall y | y in m ensures k.mtime <= y.mtime {
        if y != x { assert y in rest; }
      }
    }
  }

  /** With distinct modification times, every candidate occurs once in the candidate list. */
  lemma {:induction false} DistinctOnce(s: seq<File>, f: File)
    requires DistinctMtimes(s)
    ensures multiset(s)[f] <= 1
  {
    if s != [] {
      assert s == [s[0]] + s[1..];
      assert DistinctMtimes(s[1..]) by {
        forall i, j | 0 <= i < j < |s[1..]| ensures s[1..][i].mtime != s[1..][j].mtime {
          assert s[1..][i] == s[i + 1] && s[1..][j] == s[j + 1];
        }
      }
      DistinctOnce(s[1..], f);
      if s[0] == f {
        forall j | 0 <= j < |s[1..]| ensures s[1..][j] != f {
          assert s[1..][j] == s[j + 1];
        }
      }
    }
  }

  /**
   * With distinct modification times a pruning pass is determined by a cutoff:
   * a candidate is unlinked exactly when it is older than the oldest file
   * kept, so the files kept are the `history` newest.
   */
  lemma PruneCutoff(candidates: seq<File>, history: int, attempted: seq<File>) returns (cutoff: int)
    requires OldestSelected(candidates, history, attempted)
    requires 0 < history < |candidates|
    requires DistinctMtimes(candidates)
    ensures forall f :: f in candidates ==> (f in attempted <==> f.mtime < cutoff)
  {
    var kept := multiset(candidates) - multiset(attempted);
    PruneKeepsHistory(candidates, history, attempted);
    var k := OldestOf(kept);
    forall f | f in candidates
      ensures f in attempted <==> f.mtime < k.mtime
    {
      DistinctOnce(candidates, f);
      if f in attempted {
        assert f != k;
        var i :| 0 <= i < |candidates| && candidates[i] == f;
        var j :| 0 <= j < |candidates| && candidates[j] == k;
        assert f.mtime != k.mtime by { assert i != j; }
      } else {
        assert f in kept;
      }
    }
    cutoff := k.mtime;
  }
}
