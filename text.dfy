/** String primitives shared by the modules: the JavaScript white-space set and
    `trim`, substring occurrence (`includes`), the leftmost-match search that a
    non-global `String.prototype.match` performs, and the greedy run of
    characters outside a one-character negated class such as `[^&]+`. */
module Text {
  import opened Wrappers

  /** The characters JavaScript treats as white space. The regular-expression
      class `\s` and `String.prototype.trim` use this one set: the WhiteSpace
      characters (TAB, VT, FF, SPACE, NO-BREAK SPACE, ZERO WIDTH NO-BREAK SPACE
      and category Zs) and the LineTerminator characters (LF, CR, LINE
      SEPARATOR, PARAGRAPH SEPARATOR). */
  predicate IsWhitespace(c: char) {
    var n := c as int;
    n == 0x09 || n == 0x0A || n == 0x0B || n == 0x0C || n == 0x0D || n == 0x20
    || n == 0xA0 || n == 0x1680 || (0x2000 <= n <= 0x200A) || n == 0x2028
    || n == 0x2029 || n == 0x202F || n == 0x205F || n == 0x3000 || n == 0xFEFF
  }

  predicate AllWhitespace(s: string) {
    forall i :: 0 <= i < |s| ==> IsWhitespace(s[i])
  }

  /** Neither end of `s` is white space. */
  predicate Trimmed(s: string) {
    s == [] || (!IsWhitespace(s[0]) && !IsWhitespace(s[|s| - 1]))
  }

  /** Removes the longest all-white-space prefix: the greedy `\s*`, and the
      first half of `trim`. */
  function TrimStart(s: string): (r: string)
    ensures |r| <= |s|
    ensures r == [] || !IsWhitespace(r[0])
  {
    if s != [] && IsWhitespace(s[0]) then TrimStart(s[1..]) else s
  }

  /** Removes the longest all-white-space suffix. */
  function TrimEnd(s: string): (r: string)
    ensures |r| <= |s|
    ensures r == [] || !IsWhitespace(r[|r| - 1])
  {
    if s != [] && IsWhitespace(s[|s| - 1]) then TrimEnd(s[..|s| - 1]) else s
  }

  /** `String.prototype.trim`. */
  function Trim(s: string): (r: string)
    ensures Trimmed(r)
    ensures |r| <= |s|
  {
    var t := TrimStart(s);
    TrimEndPrefix(t);
    TrimEnd(t)
  }

  /** What `TrimStart` keeps is a suffix of its input. */
  lemma {:induction false} TrimStartSuffix(s: string)
    ensures TrimStart(s) == s[|s| - |TrimStart(s)|..]
  {
    if s != [] && IsWhitespace(s[0]) {
      TrimStartSuffix(s[1..]);
      assert s[1..][|s| - 1 - |TrimStart(s)|..] == s[|s| - |TrimStart(s)|..];
    }
  }

  /** What `TrimEnd` keeps is a prefix of its input. */
  lemma {:induction false} TrimEndPrefix(s: string)
    ensures TrimEnd(s) == s[..|TrimEnd(s)|]
  {
    if s != [] && IsWhitespace(s[|s| - 1]) {
      TrimEndPrefix(s[..|s| - 1]);
      assert s[..|s| - 1][..|TrimEnd(s)|] == s[..|TrimEnd(s)|];
    }
  }

  /** What `TrimStart` removes is white space. */
  lemma {:induction false} TrimStartRemovesWhitespace(s: string)
    ensures AllWhitespace(s[..|s| - |TrimStart(s)|])
  {
    if s != [] && IsWhitespace(s[0]) {
      TrimStartRemovesWhitespace(s[1..]);
      var k := |s| - |TrimStart(s)|;
      assert s[..k] == [s[0]] + s[1..][..k - 1];
    }
  }

  /** What `TrimEnd` removes is white space. */
  lemma {:induction false} TrimEndRemovesWhitespace(s: string)
    ensures AllWhitespace(s[|TrimEnd(s)|..])
  {
    if s != [] && IsWhitespace(s[|s| - 1]) {
      var s' := s[..|s| - 1];
      TrimEndRemovesWhitespace(s');
      var k := |TrimEnd(s)|;
      assert s[k..] == s'[k..] + [s[|s| - 1]];
    }
  }

  lemma {:induction false} TrimStartAllWhitespace(s: string)
    requires AllWhitespace(s)
    ensures TrimStart(s) == []
  {
    if s != [] {
      TrimStartAllWhitespace(s[1..]);
    }
  }

  /** `trim` removes the white space on both sides and nothing else: whatever
      white space surrounds a string, trimming gives the same as trimming the
      string alone. */
  lemma TrimPadding(w1: string, s: string, w2: string)
    requires AllWhitespace(w1) && AllWhitespace(w2)
    ensures Trim(w1 + s + w2) == Trim(s)
  {
    assert w1 + s + w2 == w1 + (s + w2);
    TrimPadStart(w1, s + w2);
    TrimPadEnd(s, w2);
  }

  lemma TrimPadStart(w: string, s: string)
    requires AllWhitespace(w)
    ensures Trim(w + s) == Trim(s)
  {
    TrimStartSkips(w, s);
  }

  /** `TrimStart` passes over leading white space whatever follows it. */
  lemma {:induction false} TrimStartSkips(w: string, s: string)
    requires AllWhitespace(w)
    ensures TrimStart(w + s) == TrimStart(s)
  {
    if w == [] {
      assert w + s == s;
    } else {
      assert (w + s)[1..] == w[1..] + s;
      TrimStartSkips(w[1..], s);
    }
  }

  /** `TrimEnd` passes over trailing white space whatever precedes it. */
  lemma {:induction false} TrimEndSkips(s: string, w: string)
    requires AllWhitespace(w)
    ensures TrimEnd(s + w) == TrimEnd(s)
  {
    if w == [] {
      assert s + w == s;
    } else {
      assert (s + w)[..|s + w| - 1] == s + w[..|w| - 1];
      TrimEndSkips(s, w[..|w| - 1]);
    }
  }

  lemma TrimPadEnd(s: string, w: string)
    requires AllWhitespace(w)
    ensures Trim(s + w) == Trim(s)
  {
    var t := TrimStart(s);
    var lead := s[..|s| - |t|];
    TrimStartRemovesWhitespace(s);
    TrimStartSuffix(s);
    assert s == lead + t;
    if t == [] {
      TrimPadEndBlank(s, w);
    } else {
      TrimPadEndContent(lead, t, w);
    }
  }

  lemma TrimPadEndBlank(s: string, w: string)
    requires AllWhitespace(s) && AllWhitespace(w)
    ensures Trim(s + w) == [] && Trim(s) == []
  {
    assert AllWhitespace(s + w);
    TrimStartAllWhitespace(s + w);
    TrimStartAllWhitespace(s);
  }

  lemma TrimPadEndContent(lead: string, t: string, w: string)
    requires AllWhitespace(lead) && AllWhitespace(w)
    requires t != [] && !IsWhitespace(t[0])
    ensures Trim(lead + t + w) == Trim(lead + t)
  {
    assert lead + t + w == lead + (t + w);
    TrimStartSkips(lead, t + w);
    TrimStartSkips(lead, t);
    assert (t + w)[0] == t[0];
    assert TrimStart(t + w) == t + w;
    TrimEndSkips(t, w);
  }

  /** White space in front of a string that does not start with white space
      is exactly what `TrimStart` removes. */
  lemma TrimStartPadded(w: string, s: string)
    requires AllWhitespace(w)
    requires s == [] || !IsWhitespace(s[0])
    ensures TrimStart(w + s) == s
  {
    TrimStartSkips(w, s);
  }

  /** A trimmed string is left unchanged by `trim`. */
  lemma TrimTrimmed(s: string)
    requires Trimmed(s)
    ensures Trim(s) == s
  {
    assert TrimStart(s) == s;
  }

  /** `p` occurs in `s` at index `i`. */
  predicate OccursAt(s: string, p: string, i: nat) {
    i + |p| <= |s| && s[i..i + |p|] == p
  }

  /** `String.prototype.includes`. */
  predicate Contains(s: string, p: string) {
    exists i: nat | i <= |s| :: OccursAt(s, p, i)
  }

  lemma ContainsInSlice(s: string, a: nat, b: nat, p: string)
    requires a <= b <= |s|
    requires Contains(s[a..b], p)
    ensures Contains(s, p)
  {
    var i: nat :| i <= b - a && OccursAt(s[a..b], p, i);
    assert i + |p| <= b - a;
    forall k | 0 <= k < |p| ensures s[a + i..a + i + |p|][k] == p[k] {
      assert s[a..b][i..i + |p|][k] == p[k];
    }
    assert OccursAt(s, p, a + i);
  }

  /** The leftmost index at or after `from` where `at` holds: how a
      non-global `match` chooses among the places a pattern matches. */
  function FirstMatch(s: string, from: nat, at: (string, nat) -> bool): (r: Option<nat>)
    decreases |s| - from
    ensures r.Some? ==> from <= r.value <= |s| && at(s, r.value)
    ensures r.Some? ==> forall j :: from <= j < r.value ==> !at(s, j)
    ensures r.None? ==> forall j :: from <= j <= |s| ==> !at(s, j)
  {
    if from > |s| then None
    else if at(s, from) then Some(from)
    else FirstMatch(s, from + 1, at)
  }

  /** The longest prefix of `s` free of `stop`: what the greedy capture
      `([^stop]+)` takes once the match has reached its start. */
  function RunUntil(s: string, stop: char): (r: string)
    ensures |r| <= |s| && r == s[..|r|]
    ensures stop !in r
    ensures |r| == |s| || s[|r|] == stop
  {
    if s == [] || s[0] == stop then [] else [s[0]] + RunUntil(s[1..], stop)
  }

  /** `id` is the maximal run of non-`stop` characters of `s` from `start`. */
  predicate IsRunUntil(s: string, start: nat, stop: char, id: string) {
    && start + |id| <= |s|
    && s[start..start + |id|] == id
    && stop !in id
    && (start + |id| == |s| || s[start + |id|] == stop)
  }

  /** The maximal run is unique, and `RunUntil` computes it. */
  lemma RunUntilUnique(s: string, start: nat, stop: char, id: string)
    requires IsRunUntil(s, start, stop, id)
    ensures RunUntil(s[start..], stop) == id
  {
    var t := s[start..];
    var r := RunUntil(t, stop);
    assert |r| == |id|;
    assert r == t[..|r|];
    assert id == t[..|id|];
  }
}
