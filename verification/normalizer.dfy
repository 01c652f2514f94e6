/** The message normaliser `simplify_msg` (src/diffing.rs:27-37): a message
    that carries the pattern `--extra-deprecated-features (?<feature_name>[\w-]+)\b`
    is replaced by `Deprecated Feature: <feature_name>`; any other message is
    kept as it is.

    The regex engine is modelled in two ways. `Matches` is the declarative
    meaning of the pattern (the marker, a non-empty run of `[\w-]`, then a word
    boundary). `MatchEnd` and `FindMatch` are the way a leftmost-first engine
    settles on one match: the leftmost start, and the longest run there, which
    means the greedy `+` backs off over trailing `-` until `\b` holds. */
module Normalizer {
  import opened Common

  const Marker: string := "--extra-deprecated-features "
  const Replacement: string := "Deprecated Feature: "

  /** `\w`, restricted to ASCII letters, digits and underscore. */
  predicate IsWordChar(c: char) {
    ('a' <= c <= 'z') || ('A' <= c <= 'Z') || ('0' <= c <= '9') || c == '_'
  }

  /** The class `[\w-]`. */
  predicate IsNameChar(c: char) {
    IsWordChar(c) || c == '-'
  }

  /** `\b` at index `k`: exactly one of the characters around `k` is a word
      character (outside the string counts as a non-word character). */
  predicate Boundary(s: string, k: nat)
    requires k <= |s|
  {
    (k > 0 && IsWordChar(s[k - 1])) != (k < |s| && IsWordChar(s[k]))
  }

  predicate MarkerAt(s: string, i: nat) {
    i + |Marker| <= |s| && s[i..i + |Marker|] == Marker
  }

  /** The pattern matches `s[i..k]`; the capture group is `s[i + |Marker|..k]`. */
  ghost predicate Matches(s: string, i: nat, k: nat) {
    && MarkerAt(s, i)
    && i + |Marker| < k <= |s|
    && (forall j :: i + |Marker| <= j < k ==> IsNameChar(s[j]))
    && Boundary(s, k)
  }

  /** The match a leftmost-first engine reports: no match starts earlier, and
      the greedy run is the longest one that ends on a boundary. */
  ghost predicate LeftmostMatch(s: string, i: nat, k: nat) {
    && Matches(s, i, k)
    && (forall k': nat :: Matches(s, i, k') ==> k' <= k)
    && (forall j: nat, k': nat :: j < i ==> !Matches(s, j, k'))
  }

  ghost predicate NoMatch(s: string) {
    forall i: nat, k: nat :: !Matches(s, i, k)
  }

  /** End of the maximal run of `[\w-]` characters that starts at `j`. */
  function RunEnd(s: string, j: nat): (e: nat)
    requires j <= |s|
    ensures j <= e <= |s|
    ensures forall x :: j <= x < e ==> IsNameChar(s[x])
    ensures e == |s| || !IsNameChar(s[e])
    decreases |s| - j
  {
    if j == |s| || !IsNameChar(s[j]) then j else RunEnd(s, j + 1)
  }

  /** Backing off from `e` towards `p`: the end just after the last word
      character of `s[p..e]`, or `p` when there is none. */
  function LastWordEnd(s: string, p: nat, e: nat): (k: nat)
    requires p <= e <= |s|
    ensures p <= k <= e
    ensures k > p ==> IsWordChar(s[k - 1])
    ensures forall x :: k <= x < e ==> !IsWordChar(s[x])
    decreases e - p
  {
    if e == p then p
    else if IsWordChar(s[e - 1]) then e
    else LastWordEnd(s, p, e - 1)
  }

  /** The end of the match the engine reports when it tries start `i`. */
  function MatchEnd(s: string, i: nat): (r: Option<nat>)
    ensures r.Some? ==> MarkerAt(s, i) && i + |Marker| < r.value <= |s|
    ensures r.Some? ==> (forall j :: i + |Marker| <= j < r.value ==> IsNameChar(s[j])) && IsWordChar(s[r.value - 1])
  {
    if !MarkerAt(s, i) then None
    else
      var p := i + |Marker|;
      var k := LastWordEnd(s, p, RunEnd(s, p));
      if k == p then None else Some(k)
  }

  /** The engine's choice at one start agrees with the pattern's meaning: it
      finds a match exactly when one exists, and it is the longest. */
  lemma MatchEndIsGreedy(s: string, i: nat)
    ensures MatchEnd(s, i).Some? <==> exists k: nat :: Matches(s, i, k)
    ensures MatchEnd(s, i).Some? ==> Matches(s, i, MatchEnd(s, i).value)
    ensures forall k: nat :: Matches(s, i, k) ==> MatchEnd(s, i).Some? && k <= MatchEnd(s, i).value
  {
    if MarkerAt(s, i) {
      var p := i + |Marker|;
      var e := RunEnd(s, p);
      var last := LastWordEnd(s, p, e);
      forall k: nat | Matches(s, i, k)
        ensures p < last && k <= last
      {
        assert k <= e;
        assert k <= last;
      }
      if last > p {
        if last < |s| {
          if last < e {
            assert !IsWordChar(s[last]);
          } else {
            assert !IsNameChar(s[last]);
          }
        }
        assert Boundary(s, last);
        assert Matches(s, i, last);
      }
    }
  }

  /** The leftmost start at or after `from` where the engine finds a match. */
  function FindMatch(s: string, from: nat): (r: Option<(nat, nat)>)
    ensures r.Some? ==> from <= r.value.0 && MatchEnd(s, r.value.0) == Some(r.value.1)
    ensures r.Some? ==> forall j :: from <= j < r.value.0 ==> MatchEnd(s, j).None?
    ensures r.None? ==> forall j :: from <= j ==> MatchEnd(s, j).None?
    decreases |s| + 1 - from
  {
    if |s| < from then None
    else match MatchEnd(s, from)
      case Some(k) => Some((from, k))
      case None => FindMatch(s, from + 1)
  }

  /** `simplify_msg` (src/diffing.rs:31-37). */
  function Simplify(msg: string): string
  {
    Rewrite(msg, FindMatch(msg, 0))
  }

  /** The message with the match `found` (if any) replaced. */
  function Rewrite(msg: string, found: Option<(nat, nat)>): string
    requires found.Some? ==> found.value.0 + |Marker| < found.value.1 <= |msg|
  {
    if found.None? then msg else Replacement + msg[found.value.0 + |Marker|..found.value.1]
  }

  /** The normaliser rewrites exactly the messages the pattern matches, to the
      feature name captured by the leftmost match, and returns every other
      message unchanged. */
  lemma SimplifyMeaning(msg: string)
    ensures NoMatch(msg) ==> Simplify(msg) == msg
    ensures !NoMatch(msg) ==>
      exists i: nat, k: nat :: LeftmostMatch(msg, i, k) && Simplify(msg) == Replacement + msg[i + |Marker|..k]
  {
    var found := FindMatch(msg, 0);
    if found.Some? {
      var i, k := found.value.0, found.value.1;
      FoundIsLeftmost(msg, i, k);
      SimplifyFound(msg, i, k);
      assert Matches(msg, i, k);
    } else {
      NotFoundIsNoMatch(msg);
      SimplifyNotFound(msg);
    }
  }

  /** The engine's match is the pattern's leftmost-longest match. */
  lemma FoundIsLeftmost(msg: string, i: nat, k: nat)
    requires FindMatch(msg, 0) == Some((i, k))
    ensures LeftmostMatch(msg, i, k)
  {
    MatchEndIsGreedy(msg, i);
    forall j: nat, k': nat | j < i ensures !Matches(msg, j, k') {
      MatchEndIsGreedy(msg, j);
    }
  }

  /** When the engine finds nothing, the pattern matches nowhere. */
  lemma NotFoundIsNoMatch(msg: string)
    requires FindMatch(msg, 0).None?
    ensures NoMatch(msg)
  {
    forall i: nat, k: nat ensures !Matches(msg, i, k) {
      MatchEndIsGreedy(msg, i);
    }
  }

  /** Every captured feature name is a non-empty run of `[\w-]` characters
      that ends in a word character. */
  lemma CapturedName(msg: string, i: nat, k: nat)
    requires FindMatch(msg, 0) == Some((i, k))
    ensures i + |Marker| < k <= |msg|
    ensures forall j :: i + |Marker| <= j < k ==> IsNameChar(msg[j])
    ensures IsWordChar(msg[k - 1])
  {
    MatchShape(msg, i, k);
  }

  /** What the engine's match at a start looks like. */
  lemma MatchShape(s: string, i: nat, k: nat)
    requires MatchEnd(s, i) == Some(k)
    ensures i + |Marker| < k <= |s|
    ensures forall j :: i + |Marker| <= j < k ==> IsNameChar(s[j])
    ensures IsWordChar(s[k - 1])
  {
  }

  /** The marker's only space is its last character. */
  lemma MarkerSpaceOnlyAtEnd(t: nat)
    requires t < |Marker|
    ensures Marker[t] == ' ' <==> t == |Marker| - 1
  {
    assert Marker[..|Marker| - 1] == "--extra-deprecated-features";
    if t < |Marker| - 1 {
      assert Marker[t] == Marker[..|Marker| - 1][t];
    }
  }

  /** A marker ends in a space: where there is none, there is no marker. */
  lemma NoMarkerWithoutSpace(s: string, j: nat)
    requires j + |Marker| <= |s| ==> s[j + |Marker| - 1] != ' '
    ensures !MarkerAt(s, j)
  {
    if j + |Marker| <= |s| {
      assert s[j..j + |Marker|][|Marker| - 1] == s[j + |Marker| - 1];
      MarkerSpaceOnlyAtEnd(|Marker| - 1);
    }
  }

  /** A marker needs a space 27 characters after its start, so text that has
      no space after its first 27 characters holds none. */
  lemma NoMarkerAfterShortPrefix(pre: string, name: string)
    requires |pre| < |Marker|
    requires forall t :: 0 <= t < |name| ==> name[t] != ' '
    ensures forall j: nat :: !MarkerAt(pre + name, j)
  {
    var r := pre + name;
    forall j: nat ensures !MarkerAt(r, j) {
      var m := j + |Marker| - 1;
      if m < |r| {
        assert r[m] == name[m - |pre|];
      }
      NoMarkerWithoutSpace(r, j);
    }
  }

  /** A rewritten message holds no marker: its only spaces are the two of the
      replacement text, and a marker needs one 27 characters after its start. */
  lemma RewrittenHasNoMarker(name: string)
    requires forall j :: 0 <= j < |name| ==> IsNameChar(name[j])
    ensures forall j: nat :: !MarkerAt(Replacement + name, j)
  {
    assert forall t :: 0 <= t < |name| ==> name[t] != ' ';
    NoMarkerAfterShortPrefix(Replacement, name);
  }

  /** A message without the marker text is never rewritten. */
  lemma SimplifyWithoutMarker(msg: string)
    requires forall j: nat :: !MarkerAt(msg, j)
    ensures Simplify(msg) == msg
  {
  }

  /** Normalising is idempotent. */
  lemma SimplifyIdempotent(msg: string)
    ensures Simplify(Simplify(msg)) == Simplify(msg)
  {
    var found := FindMatch(msg, 0);
    if found.Some? {
      var i, k := found.value.0, found.value.1;
      CapturedName(msg, i, k);
      SimplifyFound(msg, i, k);
      RewrittenIsFixed(msg, msg[i + |Marker|..k]);
    } else {
      SimplifyNotFound(msg);
    }
  }

  /** The normaliser's result when the engine finds a match. */
  lemma SimplifyFound(msg: string, i: nat, k: nat)
    requires FindMatch(msg, 0) == Some((i, k))
    ensures Simplify(msg) == Replacement + msg[i + |Marker|..k]
  {
    SimplifyUnfold(msg);
  }

  /** `Simplify` unfolded at the engine's match. */
  lemma SimplifyUnfold(msg: string)
    requires FindMatch(msg, 0).Some?
    ensures Simplify(msg) == Replacement + msg[FindMatch(msg, 0).value.0 + |Marker|..FindMatch(msg, 0).value.1]
  {
  }

  /** The normaliser's result when the engine finds no match. */
  lemma SimplifyNotFound(msg: string)
    requires FindMatch(msg, 0).None?
    ensures Simplify(msg) == msg
  {
  }

  /** A message normalised to a feature name stays as it is. */
  lemma RewrittenIsFixed(msg: string, name: string)
    requires Simplify(msg) == Replacement + name
    requires forall j :: 0 <= j < |name| ==> IsNameChar(name[j])
    ensures Simplify(Simplify(msg)) == Simplify(msg)
  {
    SimplifyRewritten(name);
  }

  /** A rewritten message is left alone by a second pass. */
  lemma SimplifyRewritten(name: string)
    requires forall j :: 0 <= j < |name| ==> IsNameChar(name[j])
    ensures Simplify(Replacement + name) == Replacement + name
  {
    RewrittenHasNoMarker(name);
    SimplifyWithoutMarker(Replacement + name);
  }

  /** A marker cannot start inside the text before another marker unless it
      lies wholly within that text: two overlapping copies would put the
      space of the first one on a non-space of the second. */
  lemma NoEarlierMarker(prefix: string, rest: string)
    requires forall j: nat :: !MarkerAt(prefix, j)
    requires MarkerAt(prefix + rest, |prefix|)
    ensures forall j: nat :: j < |prefix| ==> !MarkerAt(prefix + rest, j)
  {
    var s := prefix + rest;
    var i := |prefix|;
    forall j: nat | j < i ensures !MarkerAt(s, j) {
      var m := j + |Marker| - 1;
      if j + |Marker| <= i {
        assert s[j..j + |Marker|] == prefix[j..j + |Marker|];
        assert !MarkerAt(prefix, j);
        assert !MarkerAt(s, j);
      } else {
        assert i <= m < i + |Marker| - 1;
        assert s[i..i + |Marker|][m - i] == s[m];
        MarkerSpaceOnlyAtEnd(m - i);
        NoMarkerWithoutSpace(s, j);
        assert !MarkerAt(s, j);
      }
    }
  }

  /** A message whose first marker is followed by a feature name (a run of
      `[\w-]` ending in a word character) and then by a character outside
      `[\w-]`, or by nothing, normalises to that feature name, whatever text
      surrounds it. */
  lemma FirstMarkerNamesFeature(prefix: string, name: string, suffix: string)
    requires forall j: nat :: !MarkerAt(prefix, j)
    requires |name| > 0 && IsWordChar(name[|name| - 1])
    requires forall j :: 0 <= j < |name| ==> IsNameChar(name[j])
    requires |suffix| == 0 || !IsNameChar(suffix[0])
    ensures Simplify(prefix + (Marker + name + suffix)) == Replacement + name
  {
    var rest := Marker + name + suffix;
    var s := prefix + rest;
    var i := |prefix|;
    var p := i + |Marker|;
    var k := p + |name|;
    assert s[i..p] == Marker;
    assert s[p..k] == name;
    NoEarlierMarker(prefix, rest);
    forall j | p <= j < k ensures IsNameChar(s[j]) {
      assert s[j] == name[j - p];
    }
    assert s[k - 1] == name[|name| - 1];
    assert k < |s| ==> s[k] == suffix[0];
    assert Matches(s, i, k);
    MatchEndIsGreedy(s, i);
    var v := MatchEnd(s, i).value;
    assert v == k;
    LeftmostStart(s, i, k);
  }

  lemma LeftmostStart(s: string, i: nat, k: nat)
    requires MatchEnd(s, i) == Some(k)
    requires forall j: nat :: j < i ==> !MarkerAt(s, j)
    ensures FindMatch(s, 0) == Some((i, k))
  {
    var r := FindMatch(s, 0);
    assert r.Some?;
    assert r.value.0 <= i;
    assert MarkerAt(s, r.value.0);
  }
}
