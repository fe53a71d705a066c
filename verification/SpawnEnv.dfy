/** The environment a child process is spawned with, and its Win32 block
    (src-tauri/src/accounts/env.rs). */
module SpawnEnvironment {
  import opened Prelude

  const SCRUBBED_ENV_VARS: seq<string> := ["ANTHROPIC_API_KEY", "ANTHROPIC_AUTH_TOKEN", "CLAUDE_CODE_OAUTH_TOKEN"]
  const CONFIG_DIR := "CLAUDE_CONFIG_DIR"

  datatype SpawnEnv = SpawnEnv(set_: seq<(string, string)>, unset: seq<string>)

  function ForAccount(configDir: string): SpawnEnv {
    SpawnEnv([(CONFIG_DIR, configDir)], SCRUBBED_ENV_VARS)
  }

  // ----- the effective environment -----

  function Get(m: map<string, string>, k: string): Option<string> {
    if k in m then Some(m[k]) else None
  }

  /** The last value given to k. */
  function LastValue(pairs: seq<(string, string)>, k: string): Option<string> {
    if pairs == [] then None
    else if pairs[|pairs| - 1].0 == k then Some(pairs[|pairs| - 1].1)
    else LastValue(pairs[..|pairs| - 1], k)
  }

  /** Overrides win over the scrub list, which wins over the ambient environment. */
  ghost predicate IsEffective(env: SpawnEnv, ambient: seq<(string, string)>, m: map<string, string>) {
    forall k :: Get(m, k) == (
      if LastValue(env.set_, k).Some? then LastValue(env.set_, k)
      else if k in env.unset then None
      else LastValue(ambient, k))
  }

  method EffectiveEnv(env: SpawnEnv, ambient: seq<(string, string)>) returns (m: map<string, string>)
    ensures IsEffective(env, ambient, m)
  {
    m := map[];
    for i := 0 to |ambient|
      invariant forall k :: Get(m, k) == LastValue(ambient[..i], k)
    {
      assert ambient[..i + 1][..i] == ambient[..i];
      m := m[ambient[i].0 := ambient[i].1];
    }
    assert ambient[..|ambient|] == ambient;
    for i := 0 to |env.unset|
      invariant forall k :: Get(m, k) == if k in env.unset[..i] then None else LastValue(ambient, k)
    {
      assert env.unset[..i + 1] == env.unset[..i] + [env.unset[i]];
      m := m - {env.unset[i]};
    }
    assert env.unset[..|env.unset|] == env.unset;
    for i := 0 to |env.set_|
      invariant IsEffective(SpawnEnv(env.set_[..i], env.unset), ambient, m)
    {
      assert env.set_[..i + 1][..i] == env.set_[..i];
      m := m[env.set_[i].0 := env.set_[i].1];
    }
    assert env.set_[..|env.set_|] == env.set_;
  }

  // ----- UTF-16 -----

  newtype u16 = x: int | 0 <= x < 0x1_0000

  function EncodeChar(c: char): (r: seq<u16>) {
    var n := c as int;
    if n < 0x1_0000 then [n as u16]
    else [(0xD800 + (n - 0x1_0000) / 0x400) as u16, (0xDC00 + (n - 0x1_0000) % 0x400) as u16]
  }

  /** A character of the first plane is its own unit; any other is a pair, the high half first, that
      gives the character back as section 2.2 of RFC 2781 decodes it. */
  lemma EncodeCharIs(c: char)
    ensures
      var us := EncodeChar(c);
      if c as int <= 0xFFFF then |us| == 1 && us[0] as int == c as int
      else
        && |us| == 2 && 0xD800 <= us[0] <= 0xDBFF && 0xDC00 <= us[1] <= 0xDFFF
        && (us[0] as int - 0xD800) * 0x400 + (us[1] as int - 0xDC00) + 0x1_0000 == c as int
  {
  }

  function Encode(s: string): seq<u16> {
    if s == [] then [] else EncodeChar(s[0]) + Encode(s[1..])
  }

  predicate IsLead(u: u16) { 0xD800 <= u < 0xDC00 }

  predicate IsTrail(u: u16) { 0xDC00 <= u < 0xE000 }

  function Decode(us: seq<u16>): Option<string> {
    if us == [] then Some("")
    else if IsLead(us[0]) then
      if |us| > 1 && IsTrail(us[1]) then
        var rest := Decode(us[2..]);
        var n := 0x1_0000 + (us[0] as int - 0xD800) * 0x400 + (us[1] as int - 0xDC00);
        if rest.Some? then Some([n as char] + rest.value) else None
      else None
    else if IsTrail(us[0]) then None
    else
      var rest := Decode(us[1..]);
      if rest.Some? then Some([us[0] as char] + rest.value) else None
  }

  lemma {:induction false} DecodeEncode(s: string)
    ensures Decode(Encode(s)) == Some(s)
  {
    if s != [] {
      DecodeEncode(s[1..]);
      DecodeFirst(s[0], Encode(s[1..]));
      assert s == [s[0]] + s[1..];
    }
  }

  lemma DecodeFirst(c: char, us: seq<u16>)
    requires Decode(us).Some?
    ensures Decode(EncodeChar(c) + us) == Some([c] + Decode(us).value)
  {
    var e := EncodeChar(c);
    assert (e + us)[|e|..] == us;
  }

  /** Characters below the surrogates keep their code, and no other character produces it. */
  lemma {:induction false} EncodedUnit(s: string, c: char)
    requires c as int < 0xD800
    ensures c as int as u16 in Encode(s) <==> c in s
  {
    if s != [] {
      EncodedUnit(s[1..], c);
    }
  }

  lemma {:induction false} DecodedUnit(us: seq<u16>, c: char)
    requires c as int < 0xD800 && Decode(us).Some?
    ensures c in Decode(us).value <==> c as int as u16 in us
  {
    if us != [] {
      if IsLead(us[0]) {
        DecodedUnit(us[2..], c);
        assert us == [us[0], us[1]] + us[2..];
      } else {
        DecodedUnit(us[1..], c);
        assert us == [us[0]] + us[1..];
      }
    }
  }

  // ----- the order of the entries -----

  function UpperChar(c: char): char {
    if 'a' <= c <= 'z' then ((c as int) - 32) as char else c
  }

  function Upper(s: string): (r: string)
    ensures |r| == |s|
  {
    seq(|s|, i requires 0 <= i < |s| => UpperChar(s[i]))
  }

  /** By upper-cased key; the map's own key order settles ties. */
  predicate KeyBefore(a: string, b: string) {
    StrLess(Upper(a), Upper(b)) || (Upper(a) == Upper(b) && StrLess(a, b))
  }

  /** r is s with 'a' to 'z' made 'A' to 'Z', character by character. */
  predicate UppersTo(s: string, r: string) {
    && |r| == |s|
    && forall k :: 0 <= k < |s| ==>
      if 'a' <= s[k] <= 'z' then r[k] as int == s[k] as int - 32 else r[k] == s[k]
  }

  /** Keys that differ in more than case are ordered by their upper case, the others as they are. */
  lemma KeyBeforeIs(a: string, b: string, x: string, y: string)
    requires UppersTo(a, x) && UppersTo(b, y)
    ensures x != y ==> (KeyBefore(a, b) <==> StrLess(x, y))
    ensures x == y ==> (KeyBefore(a, b) <==> StrLess(a, b))
  {
    UpperIs(a, x);
    UpperIs(b, y);
    StrLessTotal(x, y);
  }

  lemma UpperIs(s: string, r: string)
    requires UppersTo(s, r)
    ensures r == Upper(s)
  {
    forall k | 0 <= k < |s| ensures r[k] == UpperChar(s[k]) {
      if 'a' <= s[k] <= 'z' {
        assert r[k] as int == UpperChar(s[k]) as int;
      }
    }
  }

  lemma KeyBeforeTotal(a: string, b: string)
    ensures KeyBefore(a, b) || KeyBefore(b, a) || a == b
  {
    StrLessTotal(Upper(a), Upper(b));
    StrLessTotal(a, b);
  }

  lemma KeyBeforeTransitive(a: string, b: string, c: string)
    requires KeyBefore(a, b) && KeyBefore(b, c)
    ensures KeyBefore(a, c)
  {
    if StrLess(Upper(a), Upper(b)) && StrLess(Upper(b), Upper(c)) {
      StrLessTransitive(Upper(a), Upper(b), Upper(c));
    } else if Upper(a) == Upper(b) == Upper(c) {
      StrLessTransitive(a, b, c);
    }
  }

  ghost predicate Ascending(ks: seq<string>) {
    forall i, j :: 0 <= i < j < |ks| ==> KeyBefore(ks[i], ks[j])
  }

  function Insert(ks: seq<string>, k: string): (r: seq<string>)
    requires Ascending(ks) && k !in ks
    ensures Ascending(r) && forall x :: x in r <==> x in ks || x == k
  {
    if ks == [] then [k]
    else
      var init, last := ks[..|ks| - 1], ks[|ks| - 1];
      assert ks == init + [last];
      KeyBeforeTotal(k, last);
      if KeyBefore(k, last) then
        var r := Insert(init, k);
        AscendingEnd(init, last, k, r);
        r + [last]
      else
        AscendingAfter(ks, k);
        ks + [k]
  }

  lemma AscendingEnd(init: seq<string>, last: string, k: string, r: seq<string>)
    requires Ascending(init + [last]) && Ascending(r) && KeyBefore(k, last)
    requires forall x :: x in r <==> x in init || x == k
    ensures Ascending(r + [last])
  {
    forall i | 0 <= i < |r| ensures KeyBefore(r[i], last) {
      assert r[i] in r;
      if r[i] != k {
        var j :| 0 <= j < |init| && init[j] == r[i];
        assert KeyBefore((init + [last])[j], (init + [last])[|init|]);
      }
    }
  }

  lemma AscendingAfter(ks: seq<string>, k: string)
    requires Ascending(ks) && ks != [] && KeyBefore(ks[|ks| - 1], k)
    ensures Ascending(ks + [k])
  {
    forall i | 0 <= i < |ks| - 1 ensures KeyBefore(ks[i], k) {
      KeyBeforeTransitive(ks[i], ks[|ks| - 1], k);
    }
  }

  /** The map's keys as the block lists them. */
  ghost predicate Lists(ks: seq<string>, vars: map<string, string>) {
    Ascending(ks) && ToSet(ks) == vars.Keys
  }

  method SortedKeys(vars: map<string, string>) returns (ks: seq<string>)
    ensures Lists(ks, vars)
  {
    ks := [];
    var todo := vars.Keys;
    while todo != {}
      invariant Ascending(ks) && todo <= vars.Keys && ToSet(ks) == vars.Keys - todo
    {
      var k :| k in todo;
      assert k !in ToSet(ks);
      ghost var before := ks;
      ks := Insert(ks, k);
      assert ToSet(ks) == ToSet(before) + {k};
      todo := todo - {k};
    }
  }

  // ----- the block -----

  function EntryUnits(k: string, v: string): seq<u16> {
    Encode(k + "=" + v)
  }

  ghost function Body(vars: map<string, string>, ks: seq<string>): seq<u16>
    requires forall k :: k in ks ==> k in vars
  {
    if ks == [] then [] else EntryUnits(ks[0], vars[ks[0]]) + [0] + Body(vars, ks[1..])
  }

  ghost function BlockOf(vars: map<string, string>, ks: seq<string>): seq<u16>
    requires forall k :: k in ks ==> k in vars
  {
    Body(vars, ks) + (if ks == [] then [0] else []) + [0]
  }

  lemma ListsMembers(ks: seq<string>, vars: map<string, string>)
    requires Lists(ks, vars)
    ensures forall k :: k in ks <==> k in vars
  {
    assert forall k :: k in ks <==> k in ToSet(ks);
  }

  /** The variables' block, with its entries in the order of ks. */
  ghost predicate IsBlock(block: seq<u16>, vars: map<string, string>, ks: seq<string>) {
    Lists(ks, vars) && (forall k :: k in ks <==> k in vars) && block == BlockOf(vars, ks)
  }

  lemma NextEntry(vars: map<string, string>, ks: seq<string>, i: nat, block: seq<u16>)
    requires i < |ks| && forall k :: k in ks ==> k in vars
    ensures
      block + Body(vars, ks[i..]) == block + EntryUnits(ks[i], vars[ks[i]]) + [0] + Body(vars, ks[i + 1..])
  {
    assert ks[i..][1..] == ks[i + 1..];
    Regroup(block, EntryUnits(ks[i], vars[ks[i]]), [0], Body(vars, ks[i + 1..]));
  }

  lemma Regroup(a: seq<u16>, b: seq<u16>, c: seq<u16>, d: seq<u16>)
    ensures a + (b + c + d) == a + b + c + d
  {
  }

  method WindowsEnvBlock(vars: map<string, string>) returns (block: seq<u16>)
    ensures exists ks :: IsBlock(block, vars, ks)
  {
    var entries := SortedKeys(vars);
    ListsMembers(entries, vars);
    block := [];
    for i := 0 to |entries|
      invariant block + Body(vars, entries[i..]) == Body(vars, entries)
    {
      var k := entries[i];
      NextEntry(vars, entries, i, block);
      block := block + EntryUnits(k, vars[k]);
      block := block + [0];
    }
    if entries == [] {
      block := block + [0];
    }
    block := block + [0];
    assert IsBlock(block, vars, entries);
  }

  // ----- reading a block back -----

  function NulAt(us: seq<u16>): (i: nat)
    ensures i <= |us| && 0 !in us[..i] && (i < |us| ==> us[i] == 0)
  {
    if us == [] || us[0] == 0 then 0 else 1 + NulAt(us[1..])
  }

  /** The runs between single NULs, up to the first empty one. */
  function Split(us: seq<u16>): seq<seq<u16>> {
    var i := NulAt(us);
    if i == 0 || i == |us| then [] else [us[..i]] + Split(us[i + 1..])
  }

  /** A key for a reader that looks for the '=' from index from on: 0 takes the first '=', and 1, as
      Windows does, lets a name such as "=C:" start with one. */
  predicate IsKey(k: string, from: nat) {
    |k| >= from && '=' !in k[from..]
  }

  /** What is before that '=', and what is after it. */
  function SplitEntry(s: string, from: nat): (r: Option<(string, string)>)
    ensures r.Some? ==> IsKey(r.value.0, from) && s == r.value.0 + "=" + r.value.1
  {
    if from > |s| then None
    else
      match FindFrom(s, "=", from)
      case None => None
      case Some(i) =>
        assert forall j :: from <= j < i ==> !HasAt(s, j, "=") && (HasAt(s, j, "=") <==> s[j] == '=');
        Some((s[..i], s[i + 1..]))
  }

  function DecodeEntries(es: seq<seq<u16>>, from: nat): Option<map<string, string>> {
    if es == [] then Some(map[])
    else
      var s, rest := Decode(es[0]), DecodeEntries(es[1..], from);
      if s.None? || rest.None? || SplitEntry(s.value, from).None? then None
      else
        var (k, v) := SplitEntry(s.value, from).value;
        Some(rest.value[k := v])
  }

  function DecodeBlock(us: seq<u16>, from: nat): Option<map<string, string>> {
    DecodeEntries(Split(us), from)
  }

  // ----- main results -----

  /** No NUL anywhere, and every key one the reader can find the end of. */
  ghost predicate Representable(vars: map<string, string>, from: nat) {
    forall k :: k in vars ==> '\0' !in k && IsKey(k, from) && '\0' !in vars[k]
  }

  lemma {:induction false} NulIs(us: seq<u16>, i: nat)
    requires i < |us| && 0 !in us[..i] && us[i] == 0
    ensures NulAt(us) == i
  {
    if i > 0 {
      assert us[0] in us[..i];
      assert us[1..][..i - 1] == us[..i][1..];
      NulIs(us[1..], i - 1);
    }
  }

  lemma EntryUnitsPlain(k: string, v: string, from: nat)
    requires '\0' !in k && '\0' !in v && IsKey(k, from)
    ensures EntryUnits(k, v) != [] && 0 !in EntryUnits(k, v)
    ensures Decode(EntryUnits(k, v)) == Some(k + "=" + v) && SplitEntry(k + "=" + v, from) == Some((k, v))
  {
    EncodedUnit(k + "=" + v, '\0');
    DecodeEncode(k + "=" + v);
    FirstEquals(k, v, from);
  }

  lemma FirstEquals(k: string, v: string, from: nat)
    requires IsKey(k, from)
    ensures SplitEntry(k + "=" + v, from) == Some((k, v))
  {
    var s := k + "=" + v;
    assert HasAt(s, |k|, "=");
    forall j | from <= j < |k| ensures !HasAt(s, j, "=") {
      assert s[j] == k[from..][j - from] && s[j..j + 1] == [s[j]];
    }
    assert s[..|k|] == k && s[|k| + 1..] == v;
  }

  lemma {:induction false} ReadBack(vars: map<string, string>, ks: seq<string>, from: nat)
    requires Representable(vars, from) && NoDuplicates(ks) && forall k :: k in ks ==> k in vars
    ensures DecodeBlock(Body(vars, ks) + [0], from) == Some(map k | k in ks :: vars[k])
  {
    if ks == [] {
      assert Body(vars, ks) + [0] == [0];
    } else {
      var k := ks[0];
      ReadBack(vars, ks[1..], from);
      var rest := Body(vars, ks[1..]) + [0];
      assert Body(vars, ks) + [0] == EntryUnits(k, vars[k]) + [0] + rest;
      ReadBackFirst(k, vars[k], rest, from);
      MapOfFirst(vars, ks);
    }
  }

  lemma MapOfFirst(vars: map<string, string>, ks: seq<string>)
    requires ks != [] && forall k :: k in ks ==> k in vars
    ensures (map k | k in ks[1..] :: vars[k])[ks[0] := vars[ks[0]]] == map k | k in ks :: vars[k]
  {
    assert ks == [ks[0]] + ks[1..];
  }

  lemma ReadBackFirst(k: string, v: string, rest: seq<u16>, from: nat)
    requires '\0' !in k && '\0' !in v && IsKey(k, from) && DecodeBlock(rest, from).Some?
    ensures DecodeBlock(EntryUnits(k, v) + [0] + rest, from) == Some(DecodeBlock(rest, from).value[k := v])
  {
    var e := EntryUnits(k, v);
    EntryUnitsPlain(k, v, from);
    SplitFirst(e, rest);
    assert ([e] + Split(rest))[1..] == Split(rest);
  }

  lemma SplitFirst(e: seq<u16>, rest: seq<u16>)
    requires e != [] && 0 !in e
    ensures Split(e + [0] + rest) == [e] + Split(rest)
  {
    var us := e + [0] + rest;
    assert us[..|e|] == e && us[|e| + 1..] == rest;
    NulIs(us, |e|);
  }

  lemma {:induction false} ReadsOnlyRepresentable(us: seq<u16>, from: nat)
    requires DecodeBlock(us, from).Some?
    ensures Representable(DecodeBlock(us, from).value, from)
    decreases |us|
  {
    var i := NulAt(us);
    if 0 < i < |us| {
      var e := us[..i];
      assert Split(us) == [e] + Split(us[i + 1..]);
      assert Split(us)[1..] == Split(us[i + 1..]);
      ReadsOnlyRepresentable(us[i + 1..], from);
      DecodedUnit(e, '\0');
    }
  }

  /** Reading the block back gives the variables again, exactly when no NUL occurs in them and every
      key is one the reader can find the end of: with no '=' in it, or with none but its first
      character. */
  lemma BlockRoundTripIff(vars: map<string, string>, ks: seq<string>, from: nat)
    requires Lists(ks, vars) && forall k :: k in ks <==> k in vars
    ensures DecodeBlock(BlockOf(vars, ks), from) == Some(vars) <==> Representable(vars, from)
  {
    var us := BlockOf(vars, ks);
    if Representable(vars, from) {
      assert vars == map k | k in ks :: vars[k];
      if ks == [] {
        assert us == [0, 0];
      } else {
        AscendingDistinct(ks);
        ReadBack(vars, ks, from);
        assert us == Body(vars, ks) + [0];
      }
    }
    if DecodeBlock(us, from) == Some(vars) {
      ReadsOnlyRepresentable(us, from);
    }
  }

  lemma AscendingDistinct(ks: seq<string>)
    requires Ascending(ks)
    ensures NoDuplicates(ks)
  {
    forall i, j | 0 <= i < j < |ks| ensures ks[i] != ks[j] {
      StrLessTotal(Upper(ks[i]), Upper(ks[j]));
      StrLessTotal(ks[i], ks[j]);
    }
  }

  /** Every block ends in two NULs, and that of no variables is nothing else. */
  lemma {:induction false} EndsInTwoNuls(vars: map<string, string>, ks: seq<string>)
    requires forall k :: k in ks ==> k in vars
    ensures
      var us := BlockOf(vars, ks);
      |us| >= 2 && us[|us| - 1] == 0 && us[|us| - 2] == 0 && (ks == [] ==> us == [0, 0])
  {
    if ks != [] {
      BodyEndsInNul(vars, ks);
    }
  }

  lemma {:induction false} BodyEndsInNul(vars: map<string, string>, ks: seq<string>)
    requires ks != [] && forall k :: k in ks ==> k in vars
    ensures |Body(vars, ks)| > 0 && Body(vars, ks)[|Body(vars, ks)| - 1] == 0
  {
    if |ks| > 1 {
      BodyEndsInNul(vars, ks[1..]);
    }
  }

  /** The case-insensitive order the block promises is strict exactly when no two keys differ only
      in case. */
  lemma StrictIffNoCaseTwins(ks: seq<string>)
    requires Ascending(ks)
    ensures (forall i, j :: 0 <= i < j < |ks| ==> StrLess(Upper(ks[i]), Upper(ks[j])))
            <==> (forall i, j :: 0 <= i < j < |ks| ==> Upper(ks[i]) != Upper(ks[j]))
  {
    forall i, j | 0 <= i < j < |ks|
      ensures StrLess(Upper(ks[i]), Upper(ks[j])) <==> Upper(ks[i]) != Upper(ks[j])
    {
      StrLessTotal(Upper(ks[i]), Upper(ks[j]));
      assert KeyBefore(ks[i], ks[j]);
    }
  }

  /** Case twins are both listed, in an order that is not strict. */
  lemma TwinsAreNotStrict()
    ensures Ascending(["A", "a"]) && Upper("A") == Upper("a")
    ensures !StrLess(Upper("A"), Upper("a"))
  {
    assert StrLess("A", "a");
    StrLessTotal(Upper("A"), Upper("a"));
  }

  // ----- the override -----

  lemma {:induction false} UpperIsLeast(k: string)
    ensures Upper(k) == k || StrLess(Upper(k), k)
  {
    if k != [] {
      assert Upper(k)[1..] == Upper(k[1..]);
      if UpperChar(k[0]) == k[0] {
        UpperIsLeast(k[1..]);
        assert Upper(k) == [k[0]] + Upper(k)[1..] && k == [k[0]] + k[1..];
      }
    }
  }

  /** A name in capitals is listed before all its case variants: whoever takes the first one that fits,
      whatever its case, takes that name. */
  lemma CapitalsComeFirst(ks: seq<string>, name: string, i: nat, j: nat)
    requires Ascending(ks) && Upper(name) == name && i < |ks| && ks[i] == name
    requires j < |ks| && Upper(ks[j]) == name
    ensures i <= j
  {
    if j < i {
      assert KeyBefore(ks[j], ks[i]);
      UpperIsLeast(ks[j]);
      StrLessTotal(name, name);
      StrLessTotal(ks[j], name);
    }
  }

  /** So the account's directory wins over an ambient one in another case. */
  lemma OverrideComesFirst(configDir: string, ambient: seq<(string, string)>, vars: map<string, string>,
                           ks: seq<string>) returns (i: nat)
    requires IsEffective(ForAccount(configDir), ambient, vars) && Lists(ks, vars)
    ensures i < |ks| && ks[i] == CONFIG_DIR && Get(vars, ks[i]) == Some(configDir)
    ensures forall j :: 0 <= j < i ==> Upper(ks[j]) != CONFIG_DIR
  {
    ChildVars(configDir, ambient, vars);
    ListsMembers(ks, vars);
    assert CONFIG_DIR in ks;
    i :| 0 <= i < |ks| && ks[i] == CONFIG_DIR;
    forall j | 0 <= j < i ensures Upper(ks[j]) != CONFIG_DIR {
      if Upper(ks[j]) == CONFIG_DIR {
        ConfigDirIsCapital();
        CapitalsComeFirst(ks, CONFIG_DIR, i, j);
      }
    }
  }

  lemma ConfigDirIsCapital()
    ensures Upper(CONFIG_DIR) == CONFIG_DIR
  {
  }

  /** From the ambient environment to the child's block: read back as Windows reads it, the account's
      directory is set, the scrubbed variables are gone, and every other variable has its last ambient
      value. The ambient names are those that Windows can report. */
  method ChildBlock(configDir: string, ambient: seq<(string, string)>) returns (block: seq<u16>)
    requires '\0' !in configDir
    requires forall p :: p in ambient ==> '\0' !in p.0 && IsKey(p.0, 1) && '\0' !in p.1
    ensures DecodeBlock(block, 1).Some?
    ensures forall k ::
      Get(DecodeBlock(block, 1).value, k) ==
        (if k == CONFIG_DIR then Some(configDir) else if k in SCRUBBED_ENV_VARS then None else LastValue(ambient, k))
  {
    var env := ForAccount(configDir);
    var vars := EffectiveEnv(env, ambient);
    ChildVars(configDir, ambient, vars);
    ChildVarsRepresentable(configDir, ambient, vars);
    block := WindowsEnvBlock(vars);
    ghost var ks :| IsBlock(block, vars, ks);
    BlockRoundTripIff(vars, ks, 1);
  }

  lemma ChildVars(configDir: string, ambient: seq<(string, string)>, vars: map<string, string>)
    requires IsEffective(ForAccount(configDir), ambient, vars)
    ensures forall k ::
      Get(vars, k) ==
        (if k == CONFIG_DIR then Some(configDir) else if k in SCRUBBED_ENV_VARS then None else LastValue(ambient, k))
    ensures forall k :: k in vars && k != CONFIG_DIR ==> (k, vars[k]) in ambient
    ensures CONFIG_DIR in vars && '\0' !in CONFIG_DIR && IsKey(CONFIG_DIR, 1)
  {
    forall k ensures LastValue(ForAccount(configDir).set_, k) == if k == CONFIG_DIR then Some(configDir) else None {
      AccountOverride(configDir, k);
    }
    assert Get(vars, CONFIG_DIR).Some?;
    forall k | k in vars && k != CONFIG_DIR ensures (k, vars[k]) in ambient {
      assert Get(vars, k).Some?;
      LastValueListed(ambient, k);
    }
  }

  lemma ChildVarsRepresentable(configDir: string, ambient: seq<(string, string)>, vars: map<string, string>)
    requires IsEffective(ForAccount(configDir), ambient, vars) && '\0' !in configDir
    requires forall p :: p in ambient ==> '\0' !in p.0 && IsKey(p.0, 1) && '\0' !in p.1
    ensures Representable(vars, 1)
  {
    ChildVars(configDir, ambient, vars);
    assert Get(vars, CONFIG_DIR) == Some(configDir);
    forall k | k in vars && k != CONFIG_DIR ensures '\0' !in k && IsKey(k, 1) && '\0' !in vars[k] {
      assert (k, vars[k]) in ambient;
    }
  }

  lemma AccountOverride(configDir: string, k: string)
    ensures LastValue(ForAccount(configDir).set_, k) == if k == CONFIG_DIR then Some(configDir) else None
  {
    assert LastValue([], k) == None;
  }

  /** Windows takes names that differ only in case for the same. The scrub does not: no scrubbed name
      is left in any case exactly when the ambient environment has each in the listed case only. */
  lemma ScrubsEveryCaseIff(configDir: string, ambient: seq<(string, string)>, vars: map<string, string>)
    requires IsEffective(ForAccount(configDir), ambient, vars)
    ensures (forall k :: k in vars ==> Upper(k) !in SCRUBBED_ENV_VARS) <==>
            (forall p :: p in ambient && Upper(p.0) in SCRUBBED_ENV_VARS ==> p.0 in SCRUBBED_ENV_VARS)
  {
    ChildVars(configDir, ambient, vars);
    assert Upper(CONFIG_DIR)[1] == 'L';
    if forall k :: k in vars ==> Upper(k) !in SCRUBBED_ENV_VARS {
      forall p | p in ambient && Upper(p.0) in SCRUBBED_ENV_VARS ensures p.0 in SCRUBBED_ENV_VARS {
        LastValueFound(ambient, p);
        assert Get(vars, p.0) == None;
      }
    }
  }

  /** A name in another case is not scrubbed. */
  lemma OtherCaseStays(configDir: string, vars: map<string, string>)
    requires IsEffective(ForAccount(configDir), [("Anthropic_Api_Key", "x")], vars)
    ensures "Anthropic_Api_Key" in vars && Upper("Anthropic_Api_Key") in SCRUBBED_ENV_VARS
  {
    var ambient, k := [("Anthropic_Api_Key", "x")], "Anthropic_Api_Key";
    assert k[1] == 'n';
    ChildVars(configDir, ambient, vars);
    assert Get(vars, k) == LastValue(ambient, k);
    assert Upper(k) == "ANTHROPIC_API_KEY";
  }

  lemma {:induction false} LastValueFound(pairs: seq<(string, string)>, p: (string, string))
    requires p in pairs
    ensures LastValue(pairs, p.0).Some?
  {
    if pairs[|pairs| - 1].0 != p.0 {
      LastValueFound(pairs[..|pairs| - 1], p);
    }
  }

  lemma {:induction false} LastValueListed(pairs: seq<(string, string)>, k: string)
    ensures LastValue(pairs, k).Some? ==> (k, LastValue(pairs, k).value) in pairs
  {
    if pairs != [] {
      LastValueListed(pairs[..|pairs| - 1], k);
    }
  }
}
