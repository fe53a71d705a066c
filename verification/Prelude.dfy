/** Small shared vocabulary: optional values, sequences, ASCII case, and Unicode white space. */
module Prelude {
  datatype Option<+T> = None | Some(value: T)

  newtype byte = x: int | 0 <= x < 256

  function GetOr<T>(o: Option<T>, default: T): T {
    if o.Some? then o.value else default
  }

  // ----- sequences -----

  function Reverse<T>(s: seq<T>): (r: seq<T>)
    ensures |r| == |s|
  {
    if s == [] then [] else Reverse(s[1..]) + [s[0]]
  }

  lemma {:induction false} ReverseAt<T>(s: seq<T>, k: nat)
    requires k < |s|
    ensures Reverse(s)[k] == s[|s| - 1 - k]
  {
    if k < |s| - 1 {
      ReverseAt(s[1..], k);
    }
  }

  lemma {:induction false} ReverseConcat<T>(s: seq<T>, t: seq<T>)
    ensures Reverse(s + t) == Reverse(t) + Reverse(s)
  {
    if s == [] {
      assert s + t == t;
    } else {
      assert (s + t)[1..] == s[1..] + t;
      ReverseConcat(s[1..], t);
    }
  }

  lemma InitConcat<T>(xs: seq<T>, ys: seq<T>)
    requires ys != []
    ensures (xs + ys)[..|xs + ys| - 1] == xs + ys[..|ys| - 1] && (xs + ys)[|xs + ys| - 1] == ys[|ys| - 1]
  {
  }

  lemma ConcatAssociative<T>(a: seq<T>, b: seq<T>, c: seq<T>)
    ensures a + b + c == a + (b + c)
  {
  }

  /** r is made of the elements of s at these places, in order. */
  ghost predicate ElementsAt<T>(s: seq<T>, at: seq<nat>, r: seq<T>) {
    && |r| == |at|
    && (forall k :: 0 <= k < |at| ==> at[k] < |s| && r[k] == s[at[k]])
    && (forall k, l :: 0 <= k < l < |at| ==> at[k] < at[l])
  }

  lemma ElementsNext<T>(s: seq<T>, at: seq<nat>, r: seq<T>, x: T)
    requires ElementsAt(s, at, r)
    ensures ElementsAt(s + [x], at, r) && ElementsAt(s + [x], at + [|s|], r + [x])
  {
  }

  ghost predicate NoDuplicates<T>(s: seq<T>) {
    forall i, j :: 0 <= i < j < |s| ==> s[i] != s[j]
  }

  function ToSet<T>(s: seq<T>): set<T> {
    set x | x in s
  }

  lemma {:induction false} NoDuplicatesSize<T>(s: seq<T>)
    requires NoDuplicates(s)
    ensures |ToSet(s)| == |s|
  {
    if s != [] {
      NoDuplicatesSize(s[1..]);
      assert s == [s[0]] + s[1..];
      assert ToSet(s) == {s[0]} + ToSet(s[1..]);
    }
  }

  lemma DisjointConcat<T>(a: seq<T>, b: seq<T>)
    requires NoDuplicates(a) && NoDuplicates(b) && (forall x :: x in b ==> x !in a)
    ensures NoDuplicates(a + b)
  {
    forall i, j | 0 <= i < j < |a + b| ensures (a + b)[i] != (a + b)[j] {
      if i < |a| <= j {
        assert b[j - |a|] in b;
      } else if |a| <= i {
        assert b[i - |a|] != b[j - |a|];
      }
    }
  }

  // ----- characters -----

  function LowerChar(c: char): char {
    if 'A' <= c <= 'Z' then ((c as int) + 32) as char else c
  }

  function Lower(s: string): (r: string)
    ensures |r| == |s|
  {
    seq(|s|, i requires 0 <= i < |s| => LowerChar(s[i]))
  }

  /** r is s with 'A' to 'Z' made 'a' to 'z', character by character. */
  predicate LowersTo(s: string, r: string) {
    && |r| == |s|
    && forall k :: 0 <= k < |s| ==>
      if 'A' <= s[k] <= 'Z' then r[k] as int == s[k] as int + 32 else r[k] == s[k]
  }

  lemma LowerIs(s: string)
    ensures LowersTo(s, Lower(s))
  {
  }

  lemma LowersToOne(s: string, r: string, t: string)
    requires LowersTo(s, r) && LowersTo(s, t)
    ensures r == t
  {
    forall k | 0 <= k < |s| ensures r[k] == t[k] {
      if 'A' <= s[k] <= 'Z' {
        assert r[k] as int == t[k] as int;
      }
    }
  }

  /** The White_Space property, as Rust's char::is_whitespace uses it. */
  predicate IsWhitespace(c: char) {
    || '\U{0009}' <= c <= '\U{000D}'
    || c in {' ', '\U{0085}', '\U{00A0}', '\U{1680}', '\U{2028}', '\U{2029}', '\U{202F}', '\U{205F}', '\U{3000}'}
    || '\U{2000}' <= c <= '\U{200A}'
  }

  predicate IsPathSeparator(c: char) {
    c == '/' || c == '\\'
  }

  // ----- comparing strings, character by character -----

  predicate StrLess(s: string, t: string) {
    t != [] && (s == [] || s[0] < t[0] || (s[0] == t[0] && StrLess(s[1..], t[1..])))
  }

  /** t goes on where s ends, or has the greater character where they first differ. */
  lemma {:induction false} StrLessIff(s: string, t: string)
    ensures StrLess(s, t) <==> exists k: nat :: DiffersAt(s, t, k) && (k == |s| || s[k] < t[k])
  {
    if s != [] && t != [] && s[0] == t[0] {
      StrLessIff(s[1..], t[1..]);
      if StrLess(s, t) {
        var k: nat :| DiffersAt(s[1..], t[1..], k) && (k == |s[1..]| || s[1..][k] < t[1..][k]);
        DiffersLater(s, t, k);
        assert DiffersAt(s, t, k + 1);
      }
      if k: nat :| DiffersAt(s, t, k) && (k == |s| || s[k] < t[k]) {
        DiffersLater(s, t, k - 1);
        assert DiffersAt(s[1..], t[1..], k - 1);
      }
    } else if StrLess(s, t) {
      assert DiffersAt(s, t, 0);
    } else {
      forall k: nat | DiffersAt(s, t, k) ensures k == 0 {
        if k > 0 {
          SameFirst(s, t, k);
        }
      }
    }
  }

  ghost predicate DiffersAt(s: string, t: string, k: nat) {
    k <= |s| && k < |t| && s[..k] == t[..k] && (k < |s| ==> s[k] != t[k])
  }

  lemma SameFirst(s: string, t: string, k: nat)
    requires DiffersAt(s, t, k) && k > 0
    ensures s[0] == t[0]
  {
    assert s[..k][0] == s[0] && t[..k][0] == t[0];
  }

  lemma DiffersLater(s: string, t: string, k: nat)
    requires s != [] && t != [] && s[0] == t[0]
    ensures DiffersAt(s[1..], t[1..], k) <==> DiffersAt(s, t, k + 1)
  {
    if k + 1 <= |s| && k + 1 < |t| {
      assert s[..k + 1] == [s[0]] + s[1..][..k] && t[..k + 1] == [t[0]] + t[1..][..k];
      if s[..k + 1] == t[..k + 1] {
        assert s[1..][..k] == s[..k + 1][1..] == t[..k + 1][1..] == t[1..][..k];
      }
    }
  }

  lemma {:induction false} StrLessTotal(s: string, t: string)
    ensures !(StrLess(s, t) && StrLess(t, s))
    ensures StrLess(s, t) || StrLess(t, s) || s == t
    ensures !StrLess(s, s)
  {
    if s != [] {
      StrLessTotal(s[1..], if t == [] then [] else t[1..]);
      if t != [] && s[0] == t[0] && s[1..] == t[1..] {
        assert s == [s[0]] + s[1..] == [t[0]] + t[1..] == t;
      }
    }
  }

  lemma {:induction false} StrLessTransitive(s: string, t: string, u: string)
    requires StrLess(s, t) && StrLess(t, u)
    ensures StrLess(s, u)
  {
    if s != [] && s[0] == t[0] == u[0] {
      StrLessTransitive(s[1..], t[1..], u[1..]);
    }
  }

  predicate IsBlank(s: string) {
    forall c :: c in s ==> IsWhitespace(c)
  }

  function TrimStart(s: string): string {
    if s != [] && IsWhitespace(s[0]) then TrimStart(s[1..]) else s
  }

  ghost predicate BlankBetween(s: string, lo: nat, hi: nat)
    requires hi <= |s|
  {
    forall k :: lo <= k < hi ==> IsWhitespace(s[k])
  }

  /** The index where trimming from i on stops. */
  ghost function Skip(s: string, i: nat): (r: nat)
    requires i <= |s|
    ensures i <= r <= |s| && BlankBetween(s, i, r) && (r < |s| ==> !IsWhitespace(s[r]))
    decreases |s| - i
  {
    if i < |s| && IsWhitespace(s[i]) then Skip(s, i + 1) else i
  }

  lemma {:induction false} TrimStartIsSkip(s: string, i: nat)
    requires i <= |s|
    ensures TrimStart(s[i..]) == s[Skip(s, i)..]
    decreases |s| - i
  {
    if i < |s| && IsWhitespace(s[i]) {
      assert s[i..][1..] == s[i + 1..];
      TrimStartIsSkip(s, i + 1);
    }
  }

  predicate HasAt(s: string, i: nat, pat: string) {
    i + |pat| <= |s| && s[i..i + |pat|] == pat
  }

  /** Rust's str::find: the first occurrence. */
  function Find(s: string, pat: string): (r: Option<nat>)
    ensures r.Some? ==> HasAt(s, r.value, pat) && forall j :: 0 <= j < r.value ==> !HasAt(s, j, pat)
    ensures r.None? ==> forall j :: 0 <= j <= |s| ==> !HasAt(s, j, pat)
  {
    FindFrom(s, pat, 0)
  }

  function FindFrom(s: string, pat: string, i: nat): (r: Option<nat>)
    requires i <= |s|
    ensures r.Some? ==> r.value >= i && HasAt(s, r.value, pat) && forall j :: i <= j < r.value ==> !HasAt(s, j, pat)
    ensures r.None? ==> forall j :: i <= j <= |s| ==> !HasAt(s, j, pat)
    decreases |s| - i
  {
    if HasAt(s, i, pat) then Some(i)
    else if i == |s| then None
    else FindFrom(s, pat, i + 1)
  }

  /** Rust's str::rfind: the last occurrence. */
  function RFind(s: string, pat: string): (r: Option<nat>)
    ensures r.Some? ==> HasAt(s, r.value, pat) && forall j :: r.value < j <= |s| ==> !HasAt(s, j, pat)
    ensures r.None? ==> forall j :: 0 <= j <= |s| ==> !HasAt(s, j, pat)
  {
    RFindBelow(s, pat, |s|)
  }

  function RFindBelow(s: string, pat: string, i: nat): (r: Option<nat>)
    requires i <= |s|
    ensures r.Some? ==> r.value <= i && HasAt(s, r.value, pat) && forall j :: r.value < j <= i ==> !HasAt(s, j, pat)
    ensures r.None? ==> forall j :: 0 <= j <= i ==> !HasAt(s, j, pat)
    decreases i
  {
    if HasAt(s, i, pat) then Some(i)
    else if i == 0 then None
    else RFindBelow(s, pat, i - 1)
  }
}
