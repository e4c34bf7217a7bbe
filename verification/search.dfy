/** Search mode: the total stored size of the files whose name contains a
    search string, rows with size NA left out. */
module Search {
  import opened Tables

  /** `pattern` occurs in `name` at some position. */
  predicate Contains(name: string, pattern: string): (b: bool)
    ensures pattern <= name ==> b
    ensures pattern == [] ==> b
    ensures b ==> |pattern| <= |name|
  {
    assert name[0..] == name;
    exists i :: 0 <= i <= |name| && pattern <= name[i..]
  }

  /** What one row adds to the total: its size when its name matches and its
      size is known, otherwise nothing. */
  function Contribution(row: FileRow, pattern: string): nat {
    if Contains(row.name, pattern) && row.size.Bytes? then row.size.n else 0
  }

  /** The total search mode reports for `pattern`. */
  function MatchingTotal(files: seq<FileRow>, pattern: string): (t: nat)
    ensures (forall k :: 0 <= k < |files| ==> Contribution(files[k], pattern) == 0) ==> t == 0
  {
    if files == [] then 0
    else
      var n := |files| - 1;
      assert forall k :: 0 <= k < n ==> files[..n][k] == files[k];
      MatchingTotal(files[..n], pattern) + Contribution(files[n], pattern)
  }

  /** The total of a store made of two parts is the sum of their totals. */
  lemma {:induction false} MatchingTotalAppend(a: seq<FileRow>, b: seq<FileRow>, pattern: string)
    ensures MatchingTotal(a + b, pattern) == MatchingTotal(a, pattern) + MatchingTotal(b, pattern)
    decreases |b|
  {
    if b == [] {
      assert a + b == a;
    } else {
      var n := |b| - 1;
      MatchingTotalAppend(a, b[..n], pattern);
      assert (a + b)[..|a + b| - 1] == a + b[..n];
    }
  }

  /** Taking row j out of a store takes its contribution out of the total. */
  lemma MatchingTotalWithout(b: seq<FileRow>, j: nat, pattern: string)
    requires j < |b|
    ensures MatchingTotal(b, pattern) == MatchingTotal(b[..j] + b[j + 1..], pattern) + Contribution(b[j], pattern)
  {
    var left, right := b[..j], b[j + 1..];
    assert b == left + [b[j]] + right;
    MatchingTotalAppend(left + [b[j]], right, pattern);
    MatchingTotalAppend(left, [b[j]], pattern);
    MatchingTotalAppend(left, right, pattern);
    assert [b[j]][..0] == [];
  }

  lemma MultisetWithout(a: seq<FileRow>, b: seq<FileRow>, j: nat)
    requires a != [] && multiset(a) == multiset(b) && j < |b| && b[j] == a[|a| - 1]
    ensures multiset(a[..|a| - 1]) == multiset(b[..j] + b[j + 1..])
  {
    var n, x := |a| - 1, a[|a| - 1];
    var left, right := b[..j], b[j + 1..];
    assert a == a[..n] + [x];
    assert b == left + [x] + right;
    assert multiset(a[..n]) == multiset(a) - multiset{x};
    assert multiset(left + right) == multiset(left) + multiset(right);
    assert multiset(left + right) == multiset(b) - multiset{x};
  }

  /** The total does not depend on the order the rows come back in: any
      permutation of the rows gives the same total. */
  lemma {:induction false} MatchingTotalOrderFree(a: seq<FileRow>, b: seq<FileRow>, pattern: string)
    requires multiset(a) == multiset(b)
    ensures MatchingTotal(a, pattern) == MatchingTotal(b, pattern)
    decreases |a|
  {
    if a == [] {
      assert |b| == |multiset(b)| == 0;
    } else {
      var n := |a| - 1;
      assert a[n] in multiset(a);
      var j :| 0 <= j < |b| && b[j] == a[n];
      MultisetWithout(a, b, j);
      MatchingTotalOrderFree(a[..n], b[..j] + b[j + 1..], pattern);
      MatchingTotalWithout(b, j, pattern);
    }
  }

  /** The rows whose size is known. */
  function KnownRows(files: seq<FileRow>): (r: seq<FileRow>)
    ensures forall k :: 0 <= k < |r| ==> r[k].size.Bytes?
    ensures |r| <= |files|
  {
    if files == [] then []
    else
      var n := |files| - 1;
      KnownRows(files[..n]) + (if files[n].size.Bytes? then [files[n]] else [])
  }

  /** NA rows never contribute: dropping them leaves the total unchanged. */
  lemma {:induction false} MatchingTotalIgnoresNA(files: seq<FileRow>, pattern: string)
    ensures MatchingTotal(KnownRows(files), pattern) == MatchingTotal(files, pattern)
  {
    if files != [] {
      var n := |files| - 1;
      MatchingTotalIgnoresNA(files[..n], pattern);
      var last := if files[n].size.Bytes? then [files[n]] else [];
      MatchingTotalAppend(KnownRows(files[..n]), last, pattern);
      if last != [] {
        assert last[..0] == [];
      }
    }
  }

  /** A name that contains a pattern contains every part of that pattern. */
  lemma ContainsPart(name: string, pattern: string, part: string)
    requires Contains(name, pattern) && Contains(pattern, part)
    ensures Contains(name, part)
  {
    var i :| 0 <= i <= |name| && pattern <= name[i..];
    var j :| 0 <= j <= |pattern| && part <= pattern[j..];
    assert part <= name[i + j..] by {
      forall k | 0 <= k < |part| ensures part[k] == name[i + j + k] {
        assert part[k] == pattern[j + k];
        assert pattern[j + k] == name[i..][j + k];
      }
    }
  }

  /** Narrowing the search never raises the total: a pattern that contains
      another matches a subset of its rows. */
  lemma {:induction false} MatchingTotalNarrows(files: seq<FileRow>, pattern: string, part: string)
    requires Contains(pattern, part)
    ensures MatchingTotal(files, pattern) <= MatchingTotal(files, part)
  {
    if files != [] {
      var n := |files| - 1;
      MatchingTotalNarrows(files[..n], pattern, part);
      if Contains(files[n].name, pattern) {
        ContainsPart(files[n].name, pattern, part);
      }
    }
  }

  /** Files /a/foo.txt (1024 bytes), /a/bar.txt (NA) and /b/foo.txt (2048
      bytes): searching for "foo" gives 3072 bytes. */
  lemma SearchExample()
    ensures MatchingTotal([FileRow("1a", "/a/foo.txt", "archived", Bytes(1024), 0, "1", "7"),
                           FileRow("1b", "/a/bar.txt", "archived", NA, 0, "1", "7"),
                           FileRow("1c", "/b/foo.txt", "archived", Bytes(2048), 0, "1", "7")], "foo") == 3072
  {
    assert "foo" <= "/a/foo.txt"[3..];
    assert "foo" <= "/b/foo.txt"[3..];
    var rows := [FileRow("1a", "/a/foo.txt", "archived", Bytes(1024), 0, "1", "7"),
                 FileRow("1b", "/a/bar.txt", "archived", NA, 0, "1", "7"),
                 FileRow("1c", "/b/foo.txt", "archived", Bytes(2048), 0, "1", "7")];
    assert Contains(rows[0].name, "foo") && Contains(rows[2].name, "foo");
    assert rows[..1][..0] == [];
    assert MatchingTotal(rows[..1], "foo") == 1024;
    assert rows[..2][..1] == rows[..1];
    assert MatchingTotal(rows[..2], "foo") == 1024;
    assert rows[..2] == rows[..|rows| - 1];
  }
}
