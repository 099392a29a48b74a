/** The payload extraction of `imageToBase64` (src/utils/ImageUtils.js:12):
    `reader.result.split(',')[1]`, the base64 data after the comma of a data
    URL of the form `data:<mediatype>;base64,<data>` (section 3 of RFC 2397). */
module DataUrl {
  import opened Wrappers
  import opened Text

  /** Joins fields with one separator between neighbours. */
  function Join(fields: seq<string>, sep: char): string
  {
    if |fields| == 0 then []
    else if |fields| == 1 then fields[0]
    else fields[0] + [sep] + Join(fields[1..], sep)
  }

  /** `String.prototype.split` with a one-character separator: the fields
      between separators, at least one, none containing the separator, and
      joining them back gives the input. */
  function Split(s: string, sep: char): (r: seq<string>)
    ensures |r| >= 1
    ensures Join(r, sep) == s
    ensures forall k :: 0 <= k < |r| ==> sep !in r[k]
  {
    if s == [] then [[]]
    else
      var rest := Split(s[1..], sep);
      if s[0] == sep then [[]] + rest
      else
        var r := [[s[0]] + rest[0]] + rest[1..];
        assert r[1..] == rest[1..];
        assert s == [s[0]] + s[1..];
        r
  }

  /** `result.split(',')[1]`; `None` is the `undefined` an input without a
      comma yields. */
  function Payload(url: string): Option<string>
  {
    var fields := Split(url, ',');
    if |fields| > 1 then Some(fields[1]) else None
  }

  /** `i` is the position of the first comma of `s`. */
  predicate FirstCommaAt(s: string, i: nat) {
    i < |s| && s[i] == ',' && ',' !in s[..i]
  }

  lemma FirstFieldEndsAtFirstComma(s: string, sep: char, r: seq<string>, i: nat)
    requires |r| >= 2 && Join(r, sep) == s
    requires forall k :: 0 <= k < |r| ==> sep !in r[k]
    requires i < |s| && s[i] == sep && sep !in s[..i]
    ensures |r[0]| == i
    ensures s[i + 1..] == Join(r[1..], sep)
  {
    var rest := [sep] + Join(r[1..], sep);
    assert s == r[0] + rest;
    assert s[|r[0]|] == sep;
    assert |r[0]| == i;
    assert s[i..] == rest;
    assert s[i + 1..] == s[i..][1..];
  }

  lemma JoinedHead(r: seq<string>, sep: char)
    requires |r| >= 1
    requires sep !in r[0]
    ensures IsRunUntil(Join(r, sep), 0, sep, r[0])
  {
    var s := Join(r, sep);
    if |r| > 1 {
      assert s == r[0] + ([sep] + Join(r[1..], sep));
      assert s[..|r[0]|] == r[0];
    }
  }

  /** The value is the text after the first comma up to the second comma or
      the end: it starts right after the first comma and holds no comma. */
  lemma PayloadAfterFirstComma(s: string, i: nat)
    requires FirstCommaAt(s, i)
    ensures Payload(s).Some?
    ensures IsRunUntil(s, i + 1, ',', Payload(s).value)
  {
    var r := Split(s, ',');
    FirstFieldEndsAtFirstComma(s, ',', r, i);
    var tail := r[1..];
    JoinedHead(tail, ',');
    assert s[i + 1..] == Join(tail, ',');
    assert s[i + 1..][..|r[1]|] == r[1];
  }

  /** An input without a comma yields nothing, and one with a comma yields a
      value. */
  lemma PayloadExistsExactly(s: string)
    ensures Payload(s).None? <==> ',' !in s
  {
    var r := Split(s, ',');
    if |r| >= 2 {
      assert s == r[0] + ([','] + Join(r[1..], ','));
      assert s[|r[0]|] == ',';
    } else {
      assert s == r[0];
    }
  }

  /** The base64 alphabet of section 4 of RFC 4648, with the pad character. */
  predicate IsBase64Char(c: char) {
    ('A' <= c <= 'Z') || ('a' <= c <= 'z') || ('0' <= c <= '9') || c == '+' || c == '/' || c == '='
  }

  predicate IsBase64Text(p: string) {
    forall k :: 0 <= k < |p| ==> IsBase64Char(p[k])
  }

  /** Round trip: the base64 data URL that `readAsDataURL` produces gives
      back its payload exactly. */
  lemma PayloadOfDataUrl(mime: string, p: string)
    requires ',' !in mime
    requires IsBase64Text(p)
    ensures Payload("data:" + mime + ";base64," + p) == Some(p)
  {
    var s := "data:" + mime + ";base64," + p;
    var i := |mime| + 12;
    assert s[..i] == "data:" + mime + ";base64";
    assert s[i] == ',';
    assert FirstCommaAt(s, i);
    PayloadAfterFirstComma(s, i);
    assert s[i + 1..] == p;
    assert ',' !in p;
    assert IsRunUntil(s, i + 1, ',', p);
    RunUntilUnique(s, i + 1, ',', p);
    RunUntilUnique(s, i + 1, ',', Payload(s).value);
  }
}
