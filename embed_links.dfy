/** `getEmbedUrl` and the `isEmbedLink` test of src/components/VideoCard.jsx:
    a YouTube link is turned into the embeddable form by trying two regular
    expressions in order, the watch parameter `[?&]v=([^&]+)` and the short
    link `youtu\.be\/([^?]+)`, and is passed through when neither matches. */
module EmbedLinks {
  import opened Wrappers
  import opened Text

  const EmbedPrefix := "https://www.youtube.com/embed/"
  const EmbedMarker := "youtube.com/embed/"
  /** The page of a YouTube watch URL, before its query. */
  const WatchPage := "https://www.youtube.com/watch"
  /** The start of a YouTube share link. */
  const ShortLinkPrefix := "https://youtu.be/"

  /** `[?&]v=([^&]+)` can match at `i`: a `?` or `&`, then `v=`, then at
      least one character other than `&`. */
  predicate WatchAt(s: string, i: nat) {
    && i + 4 <= |s|
    && (s[i] == '?' || s[i] == '&')
    && s[i + 1] == 'v'
    && s[i + 2] == '='
    && s[i + 3] != '&'
  }

  /** `youtu\.be\/([^?]+)` can match at `i`: the text "youtu.be/", then at
      least one character other than `?`. */
  predicate ShortAt(s: string, i: nat) {
    && i + 10 <= |s|
    && s[i] == 'y' && s[i + 1] == 'o' && s[i + 2] == 'u' && s[i + 3] == 't'
    && s[i + 4] == 'u' && s[i + 5] == '.' && s[i + 6] == 'b' && s[i + 7] == 'e'
    && s[i + 8] == '/'
    && s[i + 9] != '?'
  }

  /** `getEmbedUrl(link)`; `None` stands for both `null` and `undefined`, as
      input and as result. */
  function GetEmbedUrl(link: Option<string>): (r: Option<string>)
    ensures r.None? <==> link.None? || link.value == []
  {
    if link.None? || link.value == [] then None
    else
      var s := link.value;
      match FirstMatch(s, 0, WatchAt)
      case Some(i) => Some(EmbedPrefix + RunUntil(s[i + 3..], '&'))
      case None =>
        match FirstMatch(s, 0, ShortAt)
        case Some(i) => Some(EmbedPrefix + RunUntil(s[i + 9..], '?'))
        case None => Some(s)
  }

  /** `actualVideoLink && actualVideoLink.includes('youtube.com/embed/')`. */
  predicate IsEmbedLink(r: Option<string>) {
    r.Some? && r.value != [] && Contains(r.value, EmbedMarker)
  }

  /** Watch form: the leftmost `?v=` or `&v=` followed by a non-`&`
      character decides, and the id is the longest run of non-`&` characters
      after it. Nothing about the host is checked, and a short link anywhere
      in the text does not matter: the watch form is tried first. */
  lemma WatchForm(s: string, i: nat, id: string)
    requires WatchAt(s, i)
    requires forall j :: 0 <= j < i ==> !WatchAt(s, j)
    requires IsRunUntil(s, i + 3, '&', id)
    ensures id != []
    ensures GetEmbedUrl(Some(s)) == Some(EmbedPrefix + id)
  {
    RunUntilUnique(s, i + 3, '&', id);
  }

  /** Short form, consulted only when no watch parameter matches anywhere:
      the leftmost "youtu.be/" followed by a non-`?` character decides, and
      the id runs to the first `?` or the end. */
  lemma ShortForm(s: string, i: nat, id: string)
    requires forall j :: 0 <= j <= |s| ==> !WatchAt(s, j)
    requires ShortAt(s, i)
    requires forall j :: 0 <= j < i ==> !ShortAt(s, j)
    requires IsRunUntil(s, i + 9, '?', id)
    ensures id != []
    ensures GetEmbedUrl(Some(s)) == Some(EmbedPrefix + id)
  {
    RunUntilUnique(s, i + 9, '?', id);
  }

  /** When neither pattern matches, the link comes back unchanged. */
  lemma PassThrough(s: string)
    requires s != []
    requires forall j :: 0 <= j <= |s| ==> !WatchAt(s, j) && !ShortAt(s, j)
    ensures GetEmbedUrl(Some(s)) == Some(s)
  {
  }

  lemma EmbedPrefixMarked(id: string)
    ensures Contains(EmbedPrefix + id, EmbedMarker)
  {
    var e := EmbedPrefix + id;
    assert e[12..30] == EmbedPrefix[12..30];
    assert OccursAt(e, EmbedMarker, 12);
  }

  /** The card embeds the player exactly when the link matched one of the
      two patterns or already held "youtube.com/embed/"; in particular every
      result of the watch and short branches is embeddable. */
  lemma EmbedLinkExactly(link: Option<string>)
    ensures IsEmbedLink(GetEmbedUrl(link)) <==>
      && link.Some? && link.value != []
      && ((exists i :: WatchAt(link.value, i)) || (exists i :: ShortAt(link.value, i))
          || Contains(link.value, EmbedMarker))
  {
    if link.Some? && link.value != [] {
      var s := link.value;
      match FirstMatch(s, 0, WatchAt)
      case Some(i) =>
        EmbedPrefixMarked(RunUntil(s[i + 3..], '&'));
      case None =>
        match FirstMatch(s, 0, ShortAt)
        case Some(i) =>
          EmbedPrefixMarked(RunUntil(s[i + 9..], '?'));
        case None =>
          assert forall i :: !WatchAt(s, i) && !ShortAt(s, i);
    }
  }

  lemma NoWatchBefore(p: string, t: string)
    requires '?' !in p && '&' !in p
    ensures forall j :: 0 <= j < |p| ==> !WatchAt(p + t, j)
  {
    forall j | 0 <= j < |p| ensures !WatchAt(p + t, j) {
      assert (p + t)[j] == p[j];
    }
  }

  lemma NoWatchWithout(s: string, a: nat, b: nat)
    requires a <= b <= |s|
    requires '?' !in s[a..b] && '&' !in s[a..b]
    ensures forall j :: a <= j < b ==> !WatchAt(s, j)
  {
    forall j | a <= j < b ensures !WatchAt(s, j) {
      assert s[j] == s[a..b][j - a];
    }
  }

  lemma NoShortWithout(s: string, a: nat, b: nat)
    requires a <= b <= |s|
    requires 'y' !in s[a..b]
    ensures forall j :: a <= j < b ==> !ShortAt(s, j)
  {
    forall j | a <= j < b ensures !ShortAt(s, j) {
      assert s[j] == s[a..b][j - a];
    }
  }

  /** No short link can end inside a tail free of `/`. */
  lemma NoShortEndingIn(s: string, k: nat)
    requires k <= |s|
    requires '/' !in s[k..]
    ensures forall j: nat :: j + 8 >= k ==> !ShortAt(s, j)
  {
    forall j: nat | j + 8 >= k ensures !ShortAt(s, j) {
    }
  }

  /** A plain video id: non-empty, with none of the characters that end or
      start a match. */
  predicate PlainId(id: string) {
    id != [] && '?' !in id && '&' !in id && '/' !in id
  }

  /** The watch URL, the short link and the embed URL of one plain id all
      normalise to the embed URL. */
  lemma CanonicalForms(id: string)
    requires PlainId(id)
    ensures GetEmbedUrl(Some(WatchPage + "?v=" + id)) == Some(EmbedPrefix + id)
    ensures GetEmbedUrl(Some(ShortLinkPrefix + id)) == Some(EmbedPrefix + id)
    ensures GetEmbedUrl(Some(EmbedPrefix + id)) == Some(EmbedPrefix + id)
  {
    WatchUrlForm(id);
    ShortUrlForm(id);
    EmbedUrlFixed(id);
  }

  lemma WatchUrlForm(id: string)
    requires PlainId(id)
    ensures GetEmbedUrl(Some(WatchPage + "?v=" + id)) == Some(EmbedPrefix + id)
  {
    var s := WatchPage + "?v=" + id;
    WatchUrlMatches(id, s);
    WatchForm(s, 29, id);
  }

  lemma WatchUrlMatches(id: string, s: string)
    requires PlainId(id)
    requires s == WatchPage + "?v=" + id
    ensures forall j :: 0 <= j < 29 ==> !WatchAt(s, j)
    ensures WatchAt(s, 29)
    ensures IsRunUntil(s, 32, '&', id)
  {
    assert s == WatchPage + ("?v=" + id);
    NoWatchBefore(WatchPage, "?v=" + id);
    assert s[32..] == id;
  }

  lemma ShortUrlForm(id: string)
    requires PlainId(id)
    ensures GetEmbedUrl(Some(ShortLinkPrefix + id)) == Some(EmbedPrefix + id)
  {
    var p := ShortLinkPrefix;
    var s := p + id;
    assert s[..17] == p;
    assert s[17..] == id;
    NoWatchWithout(s, 0, |s|) by {
      assert s[0..|s|] == s;
    }
    assert s[..8] == "https://";
    NoShortWithout(s, 0, 8);
    assert ShortAt(s, 8);
    ShortForm(s, 8, id);
  }

  /** The embed URL of a plain id is a fixed point. */
  lemma EmbedUrlFixed(id: string)
    requires PlainId(id)
    ensures GetEmbedUrl(Some(EmbedPrefix + id)) == Some(EmbedPrefix + id)
  {
    var s := EmbedPrefix + id;
    NoWatchIn(s);
    EmbedHeadNotShort(s, id);
    EmbedMarkerNotShort(s, id);
    assert s[30..] == id;
    NoShortEndingIn(s, 30);
    PassThrough(s);
  }

  lemma EmbedHeadNotShort(s: string, id: string)
    requires s == EmbedPrefix + id
    ensures forall j :: 0 <= j <= 12 ==> !ShortAt(s, j)
  {
    assert s[0..12] == "https://www.";
    NoShortWithout(s, 0, 12);
    assert s[17] == 'b';
  }

  lemma EmbedMarkerNotShort(s: string, id: string)
    requires s == EmbedPrefix + id
    ensures forall j :: 13 <= j < 30 ==> !ShortAt(s, j)
  {
    assert s[13..30] == "outube.com/embed/";
    NoShortWithout(s, 13, 30);
  }

  lemma NoWatchIn(s: string)
    requires '?' !in s && '&' !in s
    ensures forall j :: 0 <= j <= |s| ==> !WatchAt(s, j)
  {
  }

  /** Normalisation is not idempotent in general: an id that itself holds a
      watch parameter is cut again on a second pass. */
  lemma NotIdempotent()
    ensures GetEmbedUrl(Some(WatchPage + "?v=a?v=b")) == Some(EmbedPrefix + "a?v=b")
    ensures GetEmbedUrl(Some(EmbedPrefix + "a?v=b")) == Some(EmbedPrefix + "b")
  {
    var s := WatchPage + "?v=a?v=b";
    NestedWatchMatches(s);
    WatchForm(s, 29, "a?v=b");
    var e := EmbedPrefix + "a?v=b";
    NestedEmbedMatches(e);
    WatchForm(e, 31, "b");
  }

  lemma NestedWatchMatches(s: string)
    requires s == WatchPage + "?v=a?v=b"
    ensures forall j :: 0 <= j < 29 ==> !WatchAt(s, j)
    ensures WatchAt(s, 29)
    ensures IsRunUntil(s, 32, '&', "a?v=b")
  {
    NoWatchBefore(WatchPage, "?v=a?v=b");
    assert s[32..] == "a?v=b";
  }

  lemma NestedEmbedMatches(e: string)
    requires e == EmbedPrefix + "a?v=b"
    ensures forall j :: 0 <= j < 31 ==> !WatchAt(e, j)
    ensures WatchAt(e, 31)
    ensures IsRunUntil(e, 34, '&', "b")
  {
    assert e == (EmbedPrefix + "a") + "?v=b";
    NoWatchBefore(EmbedPrefix + "a", "?v=b");
    assert e[34..] == "b";
  }
}
