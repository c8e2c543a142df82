/** Raw bytes, ASCII text, searching a byte buffer, and the decimal length
    field that every object header carries. */
module Bytes {
  import opened Results

  newtype byte = x: int | 0 <= x < 256

  const NUL: byte := 0
  const NEWLINE: byte := 10
  const SPACE: byte := 32

  predicate IsAscii(s: string) {
    forall i :: 0 <= i < |s| ==> s[i] as int < 128
  }

  /** The bytes of an ASCII string (what `str::as_bytes` gives for such a string). */
  function Ascii(s: string): (r: seq<byte>)
    requires IsAscii(s)
  {
    seq(|s|, i requires 0 <= i < |s| => s[i] as int as byte)
  }

  /** Distinct ASCII strings have distinct bytes. */
  lemma AsciiInjective(a: string, b: string)
    requires IsAscii(a) && IsAscii(b) && Ascii(a) == Ascii(b)
    ensures a == b
  {
    assert |a| == |Ascii(a)|;
    forall i | 0 <= i < |a|
      ensures a[i] == b[i]
    {
      assert Ascii(a)[i] == Ascii(b)[i];
    }
  }

  /** Concatenation is associative; stated once for the proofs that regroup
      long concatenations. */
  lemma AppendAssoc<T>(a: seq<T>, b: seq<T>, c: seq<T>)
    ensures (a + b) + c == a + (b + c)
  {
  }

  lemma TakeOneMore<T>(s: seq<T>, k: nat)
    requires k < |s|
    ensures s[..k + 1] == s[..k] + [s[k]]
  {
  }

  /** Splitting off the last element keeps what lies before `j` and after it. */
  lemma SplitLast<T>(s: seq<T>, j: nat)
    requires j < |s|
    ensures s[..|s| - 1][..j] == s[..j]
    ensures s[j..] == s[..|s| - 1][j..] + [s[|s| - 1]]
  {
  }

  lemma SplitFirstTwo<T>(s: seq<T>)
    requires |s| >= 2
    ensures s == [s[0], s[1]] + s[2..]
  {
  }

  predicate StartsWith(s: seq<byte>, prefix: seq<byte>) {
    |prefix| <= |s| && s[..|prefix|] == prefix
  }

  /** The first index at or after `from` holding `b`, as `iter().position` finds it
      on the slice `s[from..]` (here the index is absolute, not relative). */
  function IndexOf(s: seq<byte>, from: nat, b: byte): (r: Option<nat>)
    requires from <= |s|
    ensures r.Some? ==> from <= r.value < |s| && s[r.value] == b
    ensures r.Some? ==> forall k :: from <= k < r.value ==> s[k] != b
    ensures r.None? ==> forall k :: from <= k < |s| ==> s[k] != b
    decreases |s| - from
  {
    if from == |s| then None
    else if s[from] == b then Some(from)
    else IndexOf(s, from + 1, b)
  }

  /** The first occurrence is unique: any index that holds `b` with no `b` before it is the one found. */
  lemma IndexOfIs(s: seq<byte>, from: nat, b: byte, k: nat)
    requires from <= k < |s| && s[k] == b
    requires forall j :: from <= j < k ==> s[j] != b
    ensures IndexOf(s, from, b) == Some(k)
  {
  }

  /** The bytes from `i` on are `a + b`: `a` sits at `i`, `b` right after it. */
  lemma DropConcat<T>(s: seq<T>, i: nat, a: seq<T>, b: seq<T>)
    requires i <= |s| && s[i..] == a + b
    ensures i + |a| <= |s| && s[i..i + |a|] == a && s[i + |a|..] == b
  {
    assert s[i..i + |a|] == s[i..][..|a|];
  }

  /** Searching from `i` for `b` over bytes `a + [b] + rest` finds the `b` after
      `a`, when `a` holds none. */
  lemma IndexOfAfter(s: seq<byte>, i: nat, a: seq<byte>, b: byte, rest: seq<byte>)
    requires i <= |s| && s[i..] == a + [b] + rest
    requires forall k :: 0 <= k < |a| ==> a[k] != b
    ensures IndexOf(s, i, b) == Some(i + |a|)
  {
    forall j | i <= j < i + |a|
      ensures s[j] != b
    {
      assert s[j] == s[i..][j - i] == a[j - i];
    }
    assert s[i + |a|] == s[i..][|a|];
    IndexOfIs(s, i, b, i + |a|);
  }

  /** Over bytes `a + [b] + rest` from `i`, where `a` holds no `b`: the search
      for `b` stops right after `a`, and `rest` follows that `b`. */
  lemma SplitAt(s: seq<byte>, i: nat, a: seq<byte>, b: byte, rest: seq<byte>)
    requires i <= |s| && s[i..] == a + [b] + rest
    requires forall k :: 0 <= k < |a| ==> a[k] != b
    ensures IndexOf(s, i, b) == Some(i + |a|)
    ensures s[i..i + |a|] == a && s[i + |a| + 1..] == rest
  {
    IndexOfAfter(s, i, a, b, rest);
    DropConcat(s, i, a + [b], rest);
    assert s[i..i + |a|] == s[i..][..|a|];
  }

  /** Bytes `mode + [SPACE] + name + [NUL] + tail` from `i` on, as a tree record
      lays them out: the first space after `i` ends `mode`, the first NUL after
      that ends `name`, and `tail` follows. */
  lemma FieldsAt(raw: seq<byte>, i: nat, mode: seq<byte>, name: seq<byte>, tail: seq<byte>, sp: nat, nul: nat)
    requires (forall k :: 0 <= k < |name| ==> name[k] != NUL) && forall k :: 0 <= k < |mode| ==> mode[k] != SPACE
    requires i <= |raw| && raw[i..] == mode + [SPACE] + name + [NUL] + tail
    requires sp == i + |mode| && nul == sp + 1 + |name|
    ensures IndexOf(raw, i, SPACE) == Some(sp)
    ensures IndexOf(raw, sp + 1, NUL) == Some(nul)
    ensures raw[sp + 1..nul] == name
    ensures raw[nul + 1..] == tail
  {
    var after := name + [NUL] + tail;
    AppendAssoc(mode + [SPACE] + name, [NUL], tail);
    AppendAssoc(mode + [SPACE], name, [NUL] + tail);
    AppendAssoc(name, [NUL], tail);
    SplitAt(raw, i, mode, SPACE, after);
    SplitAt(raw, sp + 1, name, NUL, tail);
  }

  /** Searching from `i` for `b` fails when the bytes from `i` on hold none. */
  lemma IndexOfNone(s: seq<byte>, i: nat, a: seq<byte>, b: byte)
    requires i <= |s| && s[i..] == a
    requires forall k :: 0 <= k < |a| ==> a[k] != b
    ensures IndexOf(s, i, b) == None
  {
    assert forall j :: i <= j < |s| ==> s[j] == a[j - i];
  }

  predicate IsDigit(b: byte) {
    '0' as int <= b as int <= '9' as int
  }

  predicate AllDigits(ds: seq<byte>) {
    forall i :: 0 <= i < |ds| ==> IsDigit(ds[i])
  }

  /** The ASCII decimal text of `n`, as `format!("{}", n)` writes a length. */
  function Decimal(n: nat): (r: seq<byte>)
    ensures |r| > 0 && AllDigits(r)
    ensures r[0] == '0' as int as byte <==> n == 0
    decreases n
  {
    if n < 10 then [('0' as int + n) as byte]
    else Decimal(n / 10) + [('0' as int + n % 10) as byte]
  }

  /** The number a run of ASCII decimal digits denotes. */
  function DecimalValue(ds: seq<byte>): nat
    requires AllDigits(ds)
  {
    if ds == [] then 0
    else DecimalValue(ds[..|ds| - 1]) * 10 + (ds[|ds| - 1] as int - '0' as int)
  }

  /** Reading back the length field gives the length that was written. */
  lemma {:induction false} DecimalRoundTrip(n: nat)
    ensures DecimalValue(Decimal(n)) == n
    decreases n
  {
    if n >= 10 {
      var front := Decimal(n / 10);
      var last := ('0' as int + n % 10) as byte;
      assert (front + [last])[..|front|] == front;
      DecimalRoundTrip(n / 10);
    }
  }

  /** Two lengths with the same decimal text are the same length. */
  lemma DecimalInjective(m: nat, n: nat)
    requires Decimal(m) == Decimal(n)
    ensures m == n
  {
    DecimalRoundTrip(m);
    DecimalRoundTrip(n);
  }
}
