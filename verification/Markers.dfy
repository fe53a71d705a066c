/** Status and autopilot tags in a reply (src-tauri/src/chat/markers.rs). */
module Markers {
  import opened Prelude

  const OPEN := "<cc-status"
  const LABELS: seq<string> := ["question", "done", "waiting", "working"]
  const AUTOPILOT_ON := "<cc-autopilot:on>"
  const AUTOPILOT_OFF := "<cc-autopilot:off>"

  // ----- what a marker is -----

  /** A status marker starts at i: the opening tag, ':' or '>', then the label at a and the
      closing '>' or '<' at b, with nothing but white space in between. */
  ghost predicate MarkerSpan(s: string, i: nat, tag: string, a: nat, b: nat) {
    && tag in LABELS
    && HasAt(s, i, OPEN)
    && i + |OPEN| < |s| && s[i + |OPEN|] in {':', '>'}
    && i + |OPEN| + 1 <= a && HasAt(s, a, tag) && BlankBetween(s, i + |OPEN| + 1, a)
    && a + |tag| <= b < |s| && BlankBetween(s, a + |tag|, b) && s[b] in {'>', '<'}
  }

  ghost predicate MarkerAt(s: string, i: nat, tag: string) {
    exists a: nat, b: nat :: MarkerSpan(s, i, tag, a, b)
  }

  /** r is the label of the last marker of s that starts before bound. */
  ghost predicate LastMarker(s: string, bound: nat, r: Option<string>) {
    match r
    case None => forall j: nat, l :: j < bound ==> !MarkerAt(s, j, l)
    case Some(tag) => exists i: nat ::
      i < bound && MarkerAt(s, i, tag) && forall j: nat, l :: i < j < bound ==> !MarkerAt(s, j, l)
  }

  // ----- the programs -----

  method DetectAwaiting(text: string) returns (result: Option<string>)
    ensures LastMarker(Lower(text), |text|, result)
  {
    var lower := Lower(text);
    result := None;
    var search := lower;
    ghost var at: nat := 0;
    var found := FindOpen(search, lower, at, result);
    while found.Some?
      invariant at <= |lower| && search == lower[at..]
      invariant Sought(lower, at, found, result)
      decreases |search|
    {
      var i := found.value;
      var after := search[i + |OPEN|..];
      result := ReadMarker(lower, at + i, after, result);
      at := at + i + |OPEN|;
      search := after;
      found := FindOpen(search, lower, at, result);
    }
  }

  // Where the next opening tag is, the last marker before it is known.
  ghost predicate Sought(lower: string, at: nat, found: Option<nat>, result: Option<string>) {
    match found
    case None => LastMarker(lower, |lower|, result)
    case Some(i) => at + i + |OPEN| <= |lower| && HasAt(lower, at + i, OPEN) && LastMarker(lower, at + i, result)
  }

  /** The search for the next opening tag, in what is left of the text. */
  method FindOpen(search: string, ghost lower: string, ghost at: nat, ghost result: Option<string>)
    returns (found: Option<nat>)
    requires at <= |lower| && search == lower[at..] && LastMarker(lower, at, result)
    ensures Sought(lower, at, found, result)
  {
    found := Find(search, OPEN);
    if found.Some? {
      OpenFound(lower, at, found.value, result);
    } else {
      NoOpenNoMarker(lower, at, |lower| - at, result);
    }
  }

  /** The loop body: the label after an opening tag, if a marker starts there. */
  method ReadMarker(ghost lower: string, ghost p: nat, after: string, result0: Option<string>)
    returns (result: Option<string>)
    requires HasAt(lower, p, OPEN) && after == lower[p + |OPEN|..] && LastMarker(lower, p, result0)
    ensures LastMarker(lower, p + |OPEN|, result)
  {
    var r := None;
    if after != [] && (after[0] == ':' || after[0] == '>') {
      r := LabelOf(TrimStart(after[1..]));
      assert after[1..] == lower[p + |OPEN| + 1..];
      ClosedIffMarker(lower, p);
    }
    result := if r.Some? then r else result0;
    OneMarkerPerOpen(lower, p, result0, r);
  }

  /** The loop over the labels: the one the body starts with, if it is closed. */
  method LabelOf(body: string) returns (r: Option<string>)
    ensures r.None? ==> forall l :: !Closed(body, l)
    ensures r.Some? ==> Closed(body, r.value)
  {
    r := None;
    for k := 0 to |LABELS|
      invariant r == None
      invariant forall j :: 0 <= j < k ==> !HasAt(body, 0, LABELS[j])
    {
      var tag := LABELS[k];
      if HasAt(body, 0, tag) {
        var rest := TrimStart(body[|tag|..]);
        if rest != [] && (rest[0] == '>' || rest[0] == '<') {
          r := Some(tag);
        }
        LabelsDiffer(body, tag);
        break;
      }
    }
  }

  ghost predicate Closed(body: string, tag: string) {
    && tag in LABELS
    && HasAt(body, 0, tag)
    && var rest := TrimStart(body[|tag|..]);
       rest != [] && rest[0] in {'>', '<'}
  }

  method DetectAutopilot(text: string) returns (r: Option<bool>)
    ensures LastSwitch(Lower(text), r)
  {
    var s := Lower(text);
    var onPos, offPos := RFind(s, AUTOPILOT_ON), RFind(s, AUTOPILOT_OFF);
    r := match (onPos, offPos)
      case (None, None) => None
      case (Some(_), None) => Some(true)
      case (None, Some(_)) => Some(false)
      case (Some(on), Some(off)) => Some(on > off);
    if onPos.Some? && offPos.Some? {
      SwitchesDiffer(s, onPos.value);
    }
  }

  /** r is what the last autopilot tag of s says. */
  ghost predicate LastSwitch(s: string, r: Option<bool>) {
    match r
    case None => forall i :: 0 <= i <= |s| ==> !HasAt(s, i, AUTOPILOT_ON) && !HasAt(s, i, AUTOPILOT_OFF)
    case Some(on) => exists i: nat ::
      && (if on then HasAt(s, i, AUTOPILOT_ON) else HasAt(s, i, AUTOPILOT_OFF))
      && forall j :: i < j <= |s| ==> !HasAt(s, j, AUTOPILOT_ON) && !HasAt(s, j, AUTOPILOT_OFF)
  }

  lemma SwitchesDiffer(s: string, i: nat)
    requires HasAt(s, i, AUTOPILOT_ON)
    ensures !HasAt(s, i, AUTOPILOT_OFF)
  {
    CharAt(s, i, AUTOPILOT_ON, 15);
    if HasAt(s, i, AUTOPILOT_OFF) {
      CharAt(s, i, AUTOPILOT_OFF, 15);
    }
  }

  // ----- proof -----

  lemma CharAt(s: string, i: nat, pat: string, k: nat)
    requires HasAt(s, i, pat) && k < |pat|
    ensures s[i + k] == pat[k]
  {
    assert s[i + k] == s[i..i + |pat|][k];
  }

  lemma SliceHasAt(s: string, at: nat, i: nat, pat: string)
    requires at <= |s|
    ensures HasAt(s[at..], i, pat) <==> HasAt(s, at + i, pat)
  {
    if at + i + |pat| <= |s| {
      assert s[at..][i..i + |pat|] == s[at + i..at + i + |pat|];
    }
  }

  ghost predicate NoMarkers(s: string, lo: nat, hi: nat) {
    forall j: nat, l :: lo <= j < hi ==> !MarkerAt(s, j, l)
  }

  lemma StaysLast(s: string, at: nat, n: nat, r: Option<string>)
    requires LastMarker(s, at, r) && NoMarkers(s, at, at + n)
    ensures LastMarker(s, at + n, r)
  {
    if r.Some? {
      var i: nat :| i < at && MarkerAt(s, i, r.value) && forall j: nat, l :: i < j < at ==> !MarkerAt(s, j, l);
      assert i < at + n && MarkerAt(s, i, r.value);
    }
  }

  lemma MarkerOpens(s: string, i: nat, l: string)
    requires MarkerAt(s, i, l)
    ensures HasAt(s, i, OPEN)
  {
  }

  // Where the opening tag does not occur, no marker starts.
  lemma NoOpenNoMarker(s: string, at: nat, n: nat, r: Option<string>)
    requires at + n <= |s| && LastMarker(s, at, r)
    requires forall k :: 0 <= k < n ==> !HasAt(s[at..], k, OPEN)
    ensures LastMarker(s, at + n, r)
  {
    forall j: nat, l | at <= j < at + n ensures !MarkerAt(s, j, l) {
      SliceHasAt(s, at, j - at, OPEN);
      if MarkerAt(s, j, l) {
        MarkerOpens(s, j, l);
      }
    }
    StaysLast(s, at, n, r);
  }

  lemma OpenFound(s: string, at: nat, i: nat, r: Option<string>)
    requires at <= |s| && LastMarker(s, at, r) && HasAt(s[at..], i, OPEN)
    requires forall k :: 0 <= k < i ==> !HasAt(s[at..], k, OPEN)
    ensures HasAt(s, at + i, OPEN) && LastMarker(s, at + i, r)
  {
    SliceHasAt(s, at, i, OPEN);
    NoOpenNoMarker(s, at, i, r);
  }

  // The opening tag cannot overlap itself, so skipping over it skips no marker.
  lemma OneMarkerPerOpen(s: string, p: nat, before: Option<string>, r: Option<string>)
    requires HasAt(s, p, OPEN) && LastMarker(s, p, before)
    requires if r.Some? then MarkerAt(s, p, r.value) else forall l :: !MarkerAt(s, p, l)
    ensures LastMarker(s, p + |OPEN|, if r.Some? then r else before)
  {
    NoMarkerInside(s, p);
    match r
    case Some(l) =>
    case None => NoMarkerNext(s, p, before);
  }

  lemma NoMarkerNext(s: string, p: nat, before: Option<string>)
    requires LastMarker(s, p, before) && (forall j: nat, l :: p <= j < p + |OPEN| ==> !MarkerAt(s, j, l))
    ensures LastMarker(s, p + |OPEN|, before)
  {
  }

  lemma NoMarkerInside(s: string, p: nat)
    requires HasAt(s, p, OPEN)
    ensures forall j: nat, l :: p < j < p + |OPEN| ==> !MarkerAt(s, j, l)
  {
    forall j: nat, l | p < j < p + |OPEN| ensures !MarkerAt(s, j, l) {
      NoOverlap(s, p, j);
    }
  }

  lemma NoOverlap(s: string, p: nat, j: nat)
    requires HasAt(s, p, OPEN) && p < j < p + |OPEN|
    ensures !HasAt(s, j, OPEN)
  {
    CharAt(s, p, OPEN, j - p);
    if HasAt(s, j, OPEN) {
      CharAt(s, j, OPEN, 0);
    }
  }

  lemma LabelsDiffer(body: string, tag: string)
    requires tag in LABELS && HasAt(body, 0, tag)
    ensures forall l :: l in LABELS && HasAt(body, 0, l) ==> l == tag
  {
    forall l | l in LABELS && HasAt(body, 0, l) ensures l == tag {
      CharAt(body, 0, l, 0);
      CharAt(body, 0, l, 1);
      CharAt(body, 0, tag, 0);
      CharAt(body, 0, tag, 1);
    }
  }

  // The two trims and the two prefix tests accept exactly the spans of a marker.
  lemma ClosedIffMarker(s: string, p: nat)
    requires HasAt(s, p, OPEN) && p + |OPEN| < |s| && s[p + |OPEN|] in {':', '>'}
    ensures forall l :: Closed(TrimStart(s[p + |OPEN| + 1..]), l) <==> MarkerAt(s, p, l)
  {
    var a := Skip(s, p + |OPEN| + 1);
    TrimStartIsSkip(s, p + |OPEN| + 1);
    forall l ensures Closed(s[a..], l) <==> MarkerAt(s, p, l) {
      ClosedIffSkipped(s, a, l);
      MarkerIffSkipped(s, p, l);
    }
  }

  ghost predicate SkipsTo(s: string, a: nat, l: string) {
    HasAt(s, a, l) && Skip(s, a + |l|) < |s| && s[Skip(s, a + |l|)] in {'>', '<'}
  }

  lemma MarkerIffSkipped(s: string, p: nat, l: string)
    requires HasAt(s, p, OPEN) && p + |OPEN| < |s| && s[p + |OPEN|] in {':', '>'}
    ensures l in LABELS && SkipsTo(s, Skip(s, p + |OPEN| + 1), l) <==> MarkerAt(s, p, l)
  {
    var a := Skip(s, p + |OPEN| + 1);
    if l in LABELS && SkipsTo(s, a, l) {
      assert MarkerSpan(s, p, l, a, Skip(s, a + |l|));
    }
    if MarkerAt(s, p, l) {
      SpanIsSkip(s, p, l);
    }
  }

  lemma ClosedIffSkipped(s: string, a: nat, l: string)
    requires a <= |s|
    ensures Closed(s[a..], l) <==> l in LABELS && SkipsTo(s, a, l)
  {
    SliceHasAt(s, a, 0, l);
    if l in LABELS && HasAt(s, a, l) {
      var b := Skip(s, a + |l|);
      assert s[a..][|l|..] == s[a + |l|..];
      TrimStartIsSkip(s, a + |l|);
      assert b < |s| ==> s[b..][0] == s[b];
    }
  }

  lemma LabelHead(s: string, a: nat, l: string)
    requires l in LABELS && HasAt(s, a, l)
    ensures l != [] && !IsWhitespace(s[a])
  {
    CharAt(s, a, l, 0);
  }

  lemma SpanIsSkip(s: string, p: nat, l: string)
    requires MarkerAt(s, p, l)
    ensures
      var a := Skip(s, p + |OPEN| + 1);
      a + |l| <= |s| && MarkerSpan(s, p, l, a, Skip(s, a + |l|))
  {
    var a: nat, b: nat :| MarkerSpan(s, p, l, a, b);
    LabelHead(s, a, l);
    SkipIs(s, p + |OPEN| + 1, a);
    SkipIs(s, a + |l|, b);
  }

  lemma SkipIs(s: string, i: nat, k: nat)
    requires i <= k < |s| && BlankBetween(s, i, k) && !IsWhitespace(s[k])
    ensures Skip(s, i) == k
  {
  }
}
