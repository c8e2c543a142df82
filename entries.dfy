/** Tree entries: their modes, the byte order on names, and the stable sort by
    name that `write_tree_for_dir` applies before encoding. */
module Entries {
  import opened Bytes
  import opened Hex
  import opened Framing

  datatype Mode = RegularFile | ExecutableFile | SymbolicLink | Subdirectory

  /** The mode text of an entry: "100644", "100755", "120000" or "40000". */
  function ModeBytes(m: Mode): (r: seq<byte>)
    ensures |r| >= 5 && AllDigits(r)
  {
    match m
    case RegularFile => [49, 48, 48, 54, 52, 52]
    case ExecutableFile => [49, 48, 48, 55, 53, 53]
    case SymbolicLink => [49, 50, 48, 48, 48, 48]
    case Subdirectory => [52, 48, 48, 48, 48]
  }

  /** A directory entry as `write_tree_for_dir` collects it: name, mode and the
      40-character digest of the object it names. */
  datatype TreeEntry = TreeEntry(name: seq<byte>, mode: Mode, sha: string)

  // ---------------------------------------------------------------------------
  // Byte order on names

  /** `a.cmp(b) != Greater` for byte slices: lexicographic, a proper prefix first. */
  predicate NameLe(a: seq<byte>, b: seq<byte>): (r: bool)
    ensures a <= b ==> r
    ensures b < a ==> !r
  {
    if a == [] then true
    else if b == [] then false
    else if a[0] != b[0] then a[0] < b[0]
    else NameLe(a[1..], b[1..])
  }

  lemma {:induction false} NameLeTotal(a: seq<byte>, b: seq<byte>)
    ensures NameLe(a, b) || NameLe(b, a)
  {
    if a != [] && b != [] && a[0] == b[0] {
      NameLeTotal(a[1..], b[1..]);
    }
  }

  lemma {:induction false} NameLeTransitive(a: seq<byte>, b: seq<byte>, c: seq<byte>)
    requires NameLe(a, b) && NameLe(b, c)
    ensures NameLe(a, c)
  {
    if a != [] && b != [] && c != [] && a[0] == b[0] == c[0] {
      NameLeTransitive(a[1..], b[1..], c[1..]);
    }
  }

  lemma {:induction false} NameLeAntisymmetric(a: seq<byte>, b: seq<byte>)
    requires NameLe(a, b) && NameLe(b, a)
    ensures a == b
  {
    if a != [] && b != [] {
      NameLeAntisymmetric(a[1..], b[1..]);
      assert a == [a[0]] + a[1..] && b == [b[0]] + b[1..];
    }
  }

  /** At the first byte where two names differ, the smaller byte decides. */
  lemma {:induction false} NameLeFirstDifference(a: seq<byte>, b: seq<byte>, i: nat)
    requires i < |a| && i < |b| && a[..i] == b[..i] && a[i] != b[i]
    ensures NameLe(a, b) <==> a[i] < b[i]
  {
    if i > 0 {
      assert a[0] == a[..i][0] == b[..i][0] == b[0];
      assert a[1..][..i - 1] == a[..i][1..] == b[..i][1..] == b[1..][..i - 1];
      NameLeFirstDifference(a[1..], b[1..], i - 1);
    }
  }

  /** Byte order puts "a" before "ab" before "b". */
  lemma NameOrderExample()
    ensures NameLe([97], [97, 98]) && !NameLe([97, 98], [97])
    ensures NameLe([97, 98], [98]) && !NameLe([98], [97, 98])
  {
    var ab: seq<byte> := [97, 98];
    assert ab[1..] == [98];
  }

  // ---------------------------------------------------------------------------
  // Sorting entries by name

  predicate SortedByName(es: seq<TreeEntry>) {
    forall i, j :: 0 <= i < j < |es| ==> NameLe(es[i].name, es[j].name)
  }

  /** Inserts `x` into `s` from the back, stopping after the last entry whose name
      is not above `x`'s, so entries with equal names keep their order. */
  function InsertByName(x: TreeEntry, s: seq<TreeEntry>): (r: seq<TreeEntry>)
    ensures |r| == |s| + 1 && x in r
    decreases |s|
  {
    if s == [] then [x]
    else if NameLe(s[|s| - 1].name, x.name) then s + [x]
    else InsertByName(x, s[..|s| - 1]) + [s[|s| - 1]]
  }

  /** The stable sort by name that `entries.sort_by` performs. */
  function SortByName(s: seq<TreeEntry>): (r: seq<TreeEntry>)
    ensures |r| == |s|
    decreases |s|
  {
    if s == [] then [] else InsertByName(s[|s| - 1], SortByName(s[..|s| - 1]))
  }

  lemma {:induction false} InsertByNamePermutes(x: TreeEntry, s: seq<TreeEntry>)
    ensures multiset(InsertByName(x, s)) == multiset(s) + multiset{x}
    decreases |s|
  {
    if s != [] {
      assert s == s[..|s| - 1] + [s[|s| - 1]];
      InsertByNamePermutes(x, s[..|s| - 1]);
    }
  }

  lemma {:induction false} InsertByNameSorted(x: TreeEntry, s: seq<TreeEntry>)
    requires SortedByName(s)
    ensures SortedByName(InsertByName(x, s))
    decreases |s|
  {
    if s != [] {
      var y := s[|s| - 1];
      var front := s[..|s| - 1];
      if NameLe(y.name, x.name) {
        forall i | 0 <= i < |s|
          ensures NameLe(s[i].name, x.name)
        {
          if i < |s| - 1 {
            NameLeTransitive(s[i].name, y.name, x.name);
          }
        }
      } else {
        InsertByNameSorted(x, front);
        InsertByNamePermutes(x, front);
        var ins := InsertByName(x, front);
        NameLeTotal(x.name, y.name);
        forall i | 0 <= i < |ins|
          ensures NameLe(ins[i].name, y.name)
        {
          assert ins[i] in multiset(ins);
          if ins[i] != x {
            assert ins[i] in multiset(front);
            var k :| 0 <= k < |front| && front[k] == ins[i];
          }
        }
      }
    }
  }

  /** The sort yields a permutation of its input, in byte order of the names. */
  lemma {:induction false} SortByNameCorrect(s: seq<TreeEntry>)
    ensures SortedByName(SortByName(s))
    ensures multiset(SortByName(s)) == multiset(s)
    decreases |s|
  {
    if s != [] {
      var front, last := s[..|s| - 1], s[|s| - 1];
      assert s == front + [last];
      assert multiset(s) == multiset(front) + multiset{last};
      assert SortByName(s) == InsertByName(last, SortByName(front));
      SortByNameCorrect(front);
      InsertByNameSorted(last, SortByName(front));
      InsertByNamePermutes(last, SortByName(front));
    }
  }

  /** Sorting keeps every entry, so it keeps the digests valid. */
  lemma SortByNameKeepsShas(s: seq<TreeEntry>)
    requires ShasValid(s)
    ensures ShasValid(SortByName(s))
  {
    SortByNameCorrect(s);
    var t := SortByName(s);
    forall i | 0 <= i < |t|
      ensures IsValidHexSha(t[i].sha)
    {
      assert t[i] in multiset(t);
      assert t[i] in multiset(s);
      var k :| 0 <= k < |s| && s[k] == t[i];
    }
  }

  /** Sorting keeps every entry, so it keeps the names free of NUL. */
  lemma SortByNameKeepsNames(s: seq<TreeEntry>)
    requires NamesNulFree(s)
    ensures NamesNulFree(SortByName(s))
  {
    SortByNameCorrect(s);
    var t := SortByName(s);
    forall i | 0 <= i < |t|
      ensures NulFree(t[i].name)
    {
      assert t[i] in multiset(t);
      assert t[i] in multiset(s);
      var k :| 0 <= k < |s| && s[k] == t[i];
    }
  }

  /** `x` lands right after the last entry whose name is not above its own: at
      `j`, when every entry from `j` on is above it and the one before `j` is not. */
  lemma {:induction false} InsertByNameAt(x: TreeEntry, s: seq<TreeEntry>, j: nat)
    requires j <= |s| && (j == 0 || NameLe(s[j - 1].name, x.name))
    requires forall k :: j <= k < |s| ==> !NameLe(s[k].name, x.name)
    ensures InsertByName(x, s) == s[..j] + [x] + s[j..]
    decreases |s|
  {
    if j < |s| {
      var front := s[..|s| - 1];
      InsertByNameAt(x, front, j);
      SplitLast(s, j);
    } else {
      assert s[..j] == s && s[j..] == [];
    }
  }

  /** `entries.sort_by(|a, b| a.name.as_bytes().cmp(b.name.as_bytes()))`, in place. */
  method SortEntries(a: array<TreeEntry>)
    modifies a
    ensures a[..] == SortByName(old(a[..]))
  {
    ghost var input := a[..];
    var i := 0;
    while i < a.Length
      invariant 0 <= i <= a.Length
      invariant a[..i] == SortByName(input[..i])
      invariant forall k :: i <= k < a.Length ==> a[k] == input[k]
    {
      TakeOneMore(input, i);
      InsertAt(a, i);
      i := i + 1;
    }
    assert input[..a.Length] == input;
  }

  /** One pass of the sort: the entry at `i` is swapped down past the entries
      before it whose names are above its own. */
  method InsertAt(a: array<TreeEntry>, i: nat)
    requires i < a.Length
    modifies a
    ensures a[..i + 1] == InsertByName(old(a[i]), old(a[..i]))
    ensures forall k :: i < k < a.Length ==> a[k] == old(a[k])
  {
    ghost var sorted := a[..i];
    var x := a[i];
    var j := i;
    while j > 0 && !NameLe(a[j - 1].name, x.name)
      invariant 0 <= j <= i
      invariant forall k :: 0 <= k < j ==> a[k] == sorted[k]
      invariant a[j] == x
      invariant forall k :: j < k <= i ==> a[k] == sorted[k - 1]
      invariant forall k :: i < k < a.Length ==> a[k] == old(a[k])
      invariant forall k :: j <= k < i ==> !NameLe(sorted[k].name, x.name)
    {
      a[j - 1], a[j] := a[j], a[j - 1];
      j := j - 1;
    }
    InsertByNameAt(x, sorted, j);
    Spliced(a[..i + 1], sorted, x, j);
  }

  /** A sequence that holds `s[..j]`, then `x`, then `s[j..]`, is that concatenation. */
  lemma Spliced(r: seq<TreeEntry>, s: seq<TreeEntry>, x: TreeEntry, j: nat)
    requires j <= |s| && |r| == |s| + 1
    requires forall k :: 0 <= k < j ==> r[k] == s[k]
    requires r[j] == x
    requires forall k :: j < k < |r| ==> r[k] == s[k - 1]
    ensures r == s[..j] + [x] + s[j..]
  {
  }

  // ---------------------------------------------------------------------------
  // Digests and names of a sequence of entries

  predicate ShasValid(es: seq<TreeEntry>) {
    forall i :: 0 <= i < |es| ==> IsValidHexSha(es[i].sha)
  }

  predicate NamesNulFree(es: seq<TreeEntry>) {
    forall i :: 0 <= i < |es| ==> NulFree(es[i].name)
  }
}
