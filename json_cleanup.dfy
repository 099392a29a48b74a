/** The markdown clean-up applied to the identification model's reply before it
    is parsed (src/utils/Api.js:58): every "```json" opener (any letter case)
    together with the white space after it is deleted, then every remaining
    triple backtick, and the result is trimmed. */
module JsonCleanup {
  import opened Text

  const Fence := "```"

  /** `t` is the word `json` in any letter case. Without the `u` flag a
      case-insensitive JavaScript regular expression compares characters by
      their upper-case forms and never lets a non-ASCII character fold to an
      ASCII one, so each letter matches exactly its two ASCII cases. */
  predicate IsJsonTag(t: string) {
    && |t| == 4
    && (t[0] == 'j' || t[0] == 'J')
    && (t[1] == 's' || t[1] == 'S')
    && (t[2] == 'o' || t[2] == 'O')
    && (t[3] == 'n' || t[3] == 'N')
  }

  /** `s` starts with a triple backtick. */
  predicate StartsWithFence(s: string) {
    |s| >= 3 && s[0] == '`' && s[1] == '`' && s[2] == '`'
  }

  /** The pattern "```json" (case-insensitive) matches at the start of `s`. */
  predicate OpensJsonFence(s: string) {
    |s| >= 7 && StartsWithFence(s) && IsJsonTag(s[3..7])
  }

  lemma StartsWithFenceOccurs(s: string)
    ensures StartsWithFence(s) <==> OccursAt(s, Fence, 0)
  {
    if |s| >= 3 {
      assert s[..3] == [s[0], s[1], s[2]];
    }
  }

  /** `replace(/```json\s*\/gi, "")`: scanning left to right, each match of the
      opener, with the greedy white-space run that follows it, is deleted and
      the scan resumes after it; every other character is kept. */
  function StripJsonOpeners(s: string): string
    decreases |s|
  {
    if OpensJsonFence(s) then StripJsonOpeners(TrimStart(s[7..]))
    else if s == [] then []
    else [s[0]] + StripJsonOpeners(s[1..])
  }

  /** `replace(/```/g, "")`: non-overlapping triple backticks, leftmost first,
      are deleted. */
  function StripFences(s: string): string
  {
    if StartsWithFence(s) then StripFences(s[3..])
    else if s == [] then []
    else [s[0]] + StripFences(s[1..])
  }

  /** The whole clean-up expression of line 58. */
  function CleanJsonText(s: string): string
  {
    Trim(StripFences(StripJsonOpeners(s)))
  }

  /** The number of backticks `s` starts with. */
  function LeadingTicks(s: string): nat
  {
    if s != [] && s[0] == '`' then 1 + LeadingTicks(s[1..]) else 0
  }

  lemma {:induction false} LeadingTicksBound(s: string)
    ensures LeadingTicks(s) <= |s|
  {
    if s != [] {
      LeadingTicksBound(s[1..]);
    }
  }

  lemma LeadingTicksOfFence(s: string)
    ensures LeadingTicks(s) >= 3 <==> StartsWithFence(s)
    ensures StartsWithFence(s) <==> OccursAt(s, Fence, 0)
  {
    LeadingTicksBound(s);
    StartsWithFenceOccurs(s);
    if |s| >= 3 {
      var s1 := s[1..];
      var s2 := s1[1..];
      assert s2[0] == s[2];
      assert LeadingTicks(s) >= 3 <==> s[0] == '`' && LeadingTicks(s1) >= 2;
      assert LeadingTicks(s1) >= 2 <==> s1[0] == '`' && LeadingTicks(s2) >= 1;
      assert LeadingTicks(s2) >= 1 <==> s2[0] == '`';
    }
  }

  lemma NotContainsCons(c: char, t: string, p: string)
    requires !Contains(t, p)
    requires !OccursAt([c] + t, p, 0)
    ensures !Contains([c] + t, p)
  {
    if Contains([c] + t, p) {
      var i: nat :| i <= |[c] + t| && OccursAt([c] + t, p, i);
      assert i > 0;
      assert ([c] + t)[i..i + |p|] == t[i - 1..i - 1 + |p|];
      assert OccursAt(t, p, i - 1);
      assert false;
    }
  }

  /** Deleting triple backticks leaves no triple backtick behind: a run of k
      backticks shrinks to k mod 3 of them, and the kept characters between
      runs are not backticks, so no two residues join up. */
  lemma {:induction false} StripFencesLeavesNone(s: string)
    ensures LeadingTicks(StripFences(s)) == LeadingTicks(s) % 3
    ensures !Contains(StripFences(s), Fence)
  {
    if StartsWithFence(s) {
      StripFencesLeavesNone(s[3..]);
      assert s[1..][1..][1..] == s[3..];
    } else if s == [] {
    } else {
      var rest := StripFences(s[1..]);
      StripFencesLeavesNone(s[1..]);
      assert StripFences(s) == [s[0]] + rest;
      LeadingTicksOfFence(s);
      LeadingTicksOfFence([s[0]] + rest);
      if s[0] == '`' {
        assert ([s[0]] + rest)[1..] == rest;
      }
      NotContainsCons(s[0], rest, Fence);
    }
  }

  lemma {:induction false} StripFencesFenceFree(s: string)
    requires !Contains(s, Fence)
    ensures StripFences(s) == s
  {
    if s != [] {
      assert !OccursAt(s, Fence, 0);
      StartsWithFenceOccurs(s);
      if Contains(s[1..], Fence) {
        assert s[1..|s|] == s[1..];
        ContainsInSlice(s, 1, |s|, Fence);
      }
      StripFencesFenceFree(s[1..]);
    }
  }

  lemma {:induction false} StripJsonOpenersFenceFree(s: string)
    requires !Contains(s, Fence)
    ensures StripJsonOpeners(s) == s
  {
    if s != [] {
      assert !OccursAt(s, Fence, 0);
      StartsWithFenceOccurs(s);
      if Contains(s[1..], Fence) {
        assert s[1..|s|] == s[1..];
        ContainsInSlice(s, 1, |s|, Fence);
      }
      StripJsonOpenersFenceFree(s[1..]);
    }
  }

  lemma {:induction false} StripFencesTickFreePrefix(a: string, b: string)
    requires '`' !in a
    ensures StripFences(a + b) == a + StripFences(b)
  {
    if a == [] {
      assert a + b == b;
    } else {
      assert (a + b)[0] == a[0];
      assert (a + b)[1..] == a[1..] + b;
      StripFencesTickFreePrefix(a[1..], b);
    }
  }

  lemma {:induction false} StripJsonOpenersTickFreePrefix(a: string, b: string)
    requires '`' !in a
    ensures StripJsonOpeners(a + b) == a + StripJsonOpeners(b)
  {
    if a == [] {
      assert a + b == b;
    } else {
      var ab := a + b;
      assert ab[0] == a[0];
      assert ab[1..] == a[1..] + b;
      StripJsonOpenersTickFreePrefix(a[1..], b);
    }
  }

  lemma TrimKeepsAbsence(s: string, p: string)
    requires !Contains(s, p)
    ensures !Contains(Trim(s), p)
  {
    var t := TrimStart(s);
    TrimStartSuffix(s);
    TrimEndPrefix(t);
    if Contains(Trim(s), p) {
      assert t[0..|Trim(s)|] == Trim(s);
      ContainsInSlice(t, 0, |Trim(s)|, p);
      assert s[|s| - |t|..|s|] == t;
      ContainsInSlice(s, |s| - |t|, |s|, p);
    }
  }

  /** After the clean-up no triple backtick is left, whatever the reply was. */
  lemma CleanLeavesNoFence(s: string)
    ensures !Contains(CleanJsonText(s), Fence)
  {
    StripFencesLeavesNone(StripJsonOpeners(s));
    TrimKeepsAbsence(StripFences(StripJsonOpeners(s)), Fence);
  }

  /** Cleaning an already cleaned text changes nothing. */
  lemma CleanIdempotent(s: string)
    ensures CleanJsonText(CleanJsonText(s)) == CleanJsonText(s)
  {
    var c := CleanJsonText(s);
    CleanLeavesNoFence(s);
    StripJsonOpenersFenceFree(c);
    StripFencesFenceFree(c);
    TrimTrimmed(c);
  }

  /** Text without backticks is only trimmed. */
  lemma CleanUnfenced(s: string)
    requires '`' !in s
    ensures CleanJsonText(s) == Trim(s)
  {
    StripJsonOpenersTickFreePrefix(s, []);
    StripFencesTickFreePrefix(s, []);
    assert s + [] == s;
  }

  /** Fenced and unfenced replies agree: wrapping backtick-free text in an
      opening "```json" (any letter case) and a closing "```", with any white
      space inside the fences, cleans to the same text as the bare text, and
      that text is the trimmed content. */
  lemma CleanFenced(tag: string, w1: string, s: string, w2: string)
    requires IsJsonTag(tag)
    requires AllWhitespace(w1) && AllWhitespace(w2)
    requires '`' !in s
    ensures CleanJsonText(Fence + tag + w1 + s + w2 + Fence) == Trim(s)
    ensures CleanJsonText(s) == Trim(s)
  {
    var body := w1 + s + w2 + Fence;
    assert Fence + tag + body == Fence + tag + w1 + s + w2 + Fence;
    CleanUnfenced(s);
    var u := FencedBodyStart(w1, s, w2);
    CleanAfterOpener(tag, body, u);
  }

  /** Once the opener and the white space after it are gone, a body that is
      backtick-free text followed by the closing fence cleans to that text,
      trimmed. */
  lemma CleanAfterOpener(tag: string, body: string, u: string)
    requires IsJsonTag(tag)
    requires TrimStart(body) == u + Fence
    requires '`' !in u
    ensures CleanJsonText(Fence + tag + body) == Trim(u)
  {
    OpenerIsDropped(tag, body);
    StripFenceIsKept();
    StripJsonOpenersTickFreePrefix(u, Fence);
    StripFencesTickFreePrefix(u, Fence);
    assert StripFences(Fence) == [];
    assert u + [] == u;
  }

  lemma OpenerIsDropped(tag: string, body: string)
    requires IsJsonTag(tag)
    ensures StripJsonOpeners(Fence + tag + body) == StripJsonOpeners(TrimStart(body))
  {
    var x := Fence + tag + body;
    assert x[0] == '`' && x[1] == '`' && x[2] == '`';
    assert x[3..7] == tag && x[7..] == body;
  }

  /** What is left of the fenced body once the white space after the opener
      is gone: the content from its first non-blank character, the white
      space before the closing fence, and that fence; its trimmed form is
      the trimmed content. */
  lemma FencedBodyStart(w1: string, s: string, w2: string) returns (u: string)
    requires AllWhitespace(w1) && AllWhitespace(w2)
    requires '`' !in s
    ensures TrimStart(w1 + s + w2 + Fence) == u + Fence
    ensures '`' !in u
    ensures Trim(u) == Trim(s)
  {
    var t := TrimStart(s);
    var lead := s[..|s| - |t|];
    TrimStartRemovesWhitespace(s);
    TrimStartSuffix(s);
    assert s == lead + t;
    assert '`' !in t by { assert t == s[|s| - |t|..]; }
    if t == [] {
      u := [];
      FencedBlank(w1, s, w2);
      assert u + Fence == Fence;
    } else {
      u := t + w2;
      FencedContent(w1, lead, t, w2);
    }
  }

  lemma FencedBlank(w1: string, s: string, w2: string)
    requires AllWhitespace(w1) && AllWhitespace(s) && AllWhitespace(w2)
    ensures TrimStart(w1 + s + w2 + Fence) == Fence
    ensures Trim(s) == []
  {
    assert AllWhitespace(w1 + s + w2);
    TrimStartPadded(w1 + s + w2, Fence);
    TrimStartAllWhitespace(s);
  }

  lemma FencedContent(w1: string, lead: string, t: string, w2: string)
    requires AllWhitespace(w1) && AllWhitespace(lead) && AllWhitespace(w2)
    requires t != [] && !IsWhitespace(t[0])
    ensures TrimStart(w1 + (lead + t) + w2 + Fence) == t + w2 + Fence
    ensures Trim(t + w2) == Trim(lead + t)
  {
    FencedContentStart(w1, lead, t, w2);
    FencedContentTrim(lead, t, w2);
  }

  lemma FencedContentTrim(lead: string, t: string, w2: string)
    requires AllWhitespace(lead) && AllWhitespace(w2)
    ensures Trim(t + w2) == Trim(lead + t)
  {
    TrimPadEnd(t, w2);
    TrimPadStart(lead, t);
  }

  lemma FencedContentStart(w1: string, lead: string, t: string, w2: string)
    requires AllWhitespace(w1) && AllWhitespace(lead)
    requires t != [] && !IsWhitespace(t[0])
    ensures TrimStart(w1 + (lead + t) + w2 + Fence) == t + w2 + Fence
  {
    assert AllWhitespace(w1 + lead);
    assert w1 + (lead + t) + w2 + Fence == (w1 + lead) + (t + w2 + Fence);
    TrimStartPadded(w1 + lead, t + w2 + Fence);
  }

  /** A lone closing fence is too short to be an opener. */
  lemma StripFenceIsKept()
    ensures StripJsonOpeners(Fence) == Fence
  {
    assert Fence[1..] == "``";
    assert Fence[1..][1..] == "`";
    assert Fence[1..][1..][1..] == "";
  }
}
