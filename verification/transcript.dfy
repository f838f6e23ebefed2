/**
  Transcript assembly: how `extract_transcript_details` turns the link the user
  typed into one text blob. The identifier used for fetching is the text between
  the first and the second `=` of the link (`url.split("=")[1]`); the fetched
  caption fragments are appended one by one, each after a single space, and the
  result is stripped of surrounding whitespace. A link without `=` and a failed
  fetch both end in `None`.

  The transcript service itself is an oracle: a function from the identifier to
  the fragments it returns, or to one of the two failures the code tells apart.
 */
module Transcript {
  import opened Wrappers
  import VideoId

  // ---------------------------------------------------------------------------
  // Whitespace and `str.strip()`
  // ---------------------------------------------------------------------------

  /** The characters Python's `str.isspace` accepts, which `strip()` removes. */
  predicate IsSpace(c: char) {
    || ('\t' <= c <= '\r')
    || ('\U{1C}' <= c <= '\U{1F}')
    || c == ' '
    || c == '\U{85}'
    || c == '\U{A0}'
    || c == '\U{1680}'
    || ('\U{2000}' <= c <= '\U{200A}')
    || c == '\U{2028}'
    || c == '\U{2029}'
    || c == '\U{202F}'
    || c == '\U{205F}'
    || c == '\U{3000}'
  }

  predicate AllSpace(s: string) {
    forall i :: 0 <= i < |s| ==> IsSpace(s[i])
  }

  /** Neither end of `s` is whitespace. */
  predicate IsTrimmed(s: string) {
    s == [] || (!IsSpace(s[0]) && !IsSpace(s[|s| - 1]))
  }

  /** `r` sits at offset `i` in `s` with only whitespace before and after it. */
  predicate StrippedAt(s: string, r: string, i: nat) {
    && i + |r| <= |s|
    && s[i..i + |r|] == r
    && AllSpace(s[..i])
    && AllSpace(s[i + |r|..])
  }

  /** How many whitespace characters `s` starts with. */
  function LeadingSpaces(s: string): (n: nat)
    ensures n <= |s|
    ensures forall i :: 0 <= i < n ==> IsSpace(s[i])
    ensures n < |s| ==> !IsSpace(s[n])
    decreases |s|
  {
    if |s| > 0 && IsSpace(s[0]) then 1 + LeadingSpaces(s[1..]) else 0
  }

  /** How many whitespace characters `s` ends with. */
  function TrailingSpaces(s: string): (n: nat)
    ensures n <= |s|
    ensures forall i :: |s| - n <= i < |s| ==> IsSpace(s[i])
    ensures n < |s| ==> !IsSpace(s[|s| - 1 - n])
    decreases |s|
  {
    if |s| > 0 && IsSpace(s[|s| - 1]) then 1 + TrailingSpaces(s[..|s| - 1]) else 0
  }

  /** `str.lstrip()`: drop leading whitespace. */
  function StripLeft(s: string): (r: string)
    ensures |r| <= |s| && r == s[|s| - |r|..]
    ensures AllSpace(s[..|s| - |r|])
    ensures r == [] || !IsSpace(r[0])
  {
    s[LeadingSpaces(s)..]
  }

  /** `str.rstrip()`: drop trailing whitespace. */
  function StripRight(s: string): (r: string)
    ensures |r| <= |s| && r == s[..|r|]
    ensures AllSpace(s[|r|..])
    ensures r == [] || !IsSpace(r[|r| - 1])
  {
    s[..|s| - TrailingSpaces(s)]
  }

  /** `str.strip()`: the trimmed core of `s`, with only whitespace cut away on either side. */
  function Strip(s: string): (r: string)
    ensures IsTrimmed(r)
    ensures exists i :: StrippedAt(s, r, i)
  {
    StripPlacement(s);
    StripRight(StripLeft(s))
  }

  /** What `lstrip` and then `rstrip` keep sits where `lstrip` cut, with whitespace around it. */
  lemma StripPlacement(s: string)
    ensures StrippedAt(s, StripRight(StripLeft(s)), |s| - |StripLeft(s)|)
  {
    var l := StripLeft(s);
    SuffixThenPrefix(s, l, StripRight(l));
  }

  /** A prefix `r` of a suffix `l` of `s`, each cut only at whitespace, sits stripped in `s`. */
  lemma SuffixThenPrefix(s: string, l: string, r: string)
    requires |l| <= |s| && l == s[|s| - |l|..] && AllSpace(s[..|s| - |l|])
    requires |r| <= |l| && r == l[..|r|] && AllSpace(l[|r|..])
    ensures StrippedAt(s, r, |s| - |l|)
  {
    var i := |s| - |l|;
    assert s[i..i + |r|] == r by {
      forall k | 0 <= k < |r|
        ensures s[i..i + |r|][k] == r[k]
      {
        assert r[k] == l[k] == s[i + k];
      }
    }
    assert s[i + |r|..] == l[|r|..];
  }

  /** Leading whitespace in front of a non-space character is exactly what `lstrip` drops. */
  lemma {:induction false} StripLeftSkips(a: string, u: string)
    requires AllSpace(a)
    requires u == [] || !IsSpace(u[0])
    ensures StripLeft(a + u) == u
    decreases |a|
  {
    if |a| > 0 {
      assert (a + u)[1..] == a[1..] + u;
      StripLeftSkips(a[1..], u);
    } else {
      assert a + u == u;
    }
  }

  /** Trailing whitespace after a non-space character is exactly what `rstrip` drops. */
  lemma {:induction false} StripRightSkips(u: string, b: string)
    requires AllSpace(b)
    requires u == [] || !IsSpace(u[|u| - 1])
    ensures StripRight(u + b) == u
    decreases |b|
  {
    if |b| > 0 {
      assert (u + b)[..|u + b| - 1] == u + b[..|b| - 1];
      StripRightSkips(u, b[..|b| - 1]);
    } else {
      assert u + b == u;
    }
  }

  /**
    `strip` is characterised by its result: whenever `s` is a trimmed text with
    whitespace on either side, stripping gives that text back.
   */
  lemma StripUnique(a: string, t: string, b: string)
    requires AllSpace(a) && AllSpace(b) && IsTrimmed(t)
    ensures Strip(a + t + b) == t
  {
    if t == [] {
      assert a + t + b == a + b;
    } else {
      assert a + t + b == a + (t + b);
      StripLeftSkips(a, t + b);
      StripRightSkips(t, b);
    }
  }

  /** Stripping twice is stripping once. */
  lemma StripIdempotent(s: string)
    ensures Strip(Strip(s)) == Strip(s)
  {
    var t := Strip(s);
    StripUnique([], t, []);
    assert [] + t + [] == t;
  }

  // ---------------------------------------------------------------------------
  // Joining the fragments
  // ---------------------------------------------------------------------------

  /** The loop `transcript += " " + text` over the fragments, in order. */
  function Join(texts: seq<string>): (r: string)
    ensures |r| >= |texts|
    ensures texts == [] <==> r == ""
    ensures r != "" ==> r[0] == ' '
    decreases |texts|
  {
    if |texts| == 0 then ""
    else Join(texts[..|texts| - 1]) + " " + texts[|texts| - 1]
  }

  /** Joining distributes over concatenation of the fragment list. */
  lemma {:induction false} JoinAppend(a: seq<string>, b: seq<string>)
    ensures Join(a + b) == Join(a) + Join(b)
    decreases |b|
  {
    if |b| == 0 {
      assert a + b == a;
    } else {
      var b' := b[..|b| - 1];
      assert (a + b)[..|a + b| - 1] == a + b';
      JoinAppend(a, b');
    }
  }

  /** Fragment `k` sits, after its space, right behind the join of the fragments before it. */
  lemma JoinPlacesFragment(texts: seq<string>, k: nat)
    requires k < |texts|
    ensures var o := |Join(texts[..k])|;
      && o + 1 + |texts[k]| <= |Join(texts)|
      && Join(texts)[o..o + 1 + |texts[k]|] == " " + texts[k]
  {
    var pre, mid, post := texts[..k], [texts[k]], texts[k + 1..];
    assert texts == pre + mid + post;
    JoinAppend(pre + mid, post);
    JoinAppend(pre, mid);
    assert mid[..0] == [];
    assert Join(mid) == " " + texts[k];
  }

  /** The assembled transcript: the stripped join of the fragments. */
  function Assemble(texts: seq<string>): (r: string)
    ensures IsTrimmed(r)
    ensures texts == [] ==> r == ""
    ensures exists i :: StrippedAt(Join(texts), r, i)
  {
    Strip(Join(texts))
  }

  /** The fetch loop of `extract_transcript_details`, step by step. */
  method AssembleTranscript(texts: seq<string>) returns (t: string)
    ensures t == Assemble(texts)
  {
    var acc := "";
    for i := 0 to |texts|
      invariant acc == Join(texts[..i])
    {
      assert texts[..i + 1][..i] == texts[..i];
      acc := acc + " " + texts[i];
    }
    assert texts[..|texts|] == texts;
    t := Strip(acc);
  }

  /** The first fragment's first character follows the opening space. */
  lemma JoinStartsWithFirst(texts: seq<string>)
    requires |texts| > 0 && texts[0] != ""
    ensures |Join(texts)| > 1 && Join(texts)[1] == texts[0][0]
  {
    JoinPlacesFragment(texts, 0);
    assert texts[..0] == [];
  }

  /** The join ends with the last fragment. */
  lemma JoinEndsWithLast(texts: seq<string>)
    requires |texts| > 0 && texts[|texts| - 1] != ""
    ensures var j := Join(texts); j[|j| - 1] == texts[|texts| - 1][|texts[|texts| - 1]| - 1]
  {
  }

  /**
    When the first fragment starts, and the last one ends, with a non-space
    character, the transcript is the fragments in order with one space between
    neighbours: only the space before the first fragment is stripped.
   */
  lemma AssembleOfTrimmedFragments(texts: seq<string>)
    requires |texts| > 0
    requires texts[0] != "" && !IsSpace(texts[0][0])
    requires texts[|texts| - 1] != "" && !IsSpace(texts[|texts| - 1][|texts[|texts| - 1]| - 1])
    ensures Assemble(texts) == Join(texts)[1..]
  {
    var j := Join(texts);
    var rest := j[1..];
    JoinStartsWithFirst(texts);
    JoinEndsWithLast(texts);
    assert IsTrimmed(rest);
    assert j == " " + rest + [];
    StripUnique(" ", rest, []);
  }

  /** Two fragments accumulate to a space, the first, a space, the second. */
  lemma JoinPair(a: string, b: string)
    ensures Join([a, b]) == " " + a + " " + b
  {
    assert [a, b][..1] == [a];
    assert [a][..0] == [];
    assert Join([a]) == " " + a;
  }

  /** Two trimmed caption lines become one line with a single space between them. */
  lemma AssembleTwo(a: string, b: string)
    requires a != "" && IsTrimmed(a) && b != "" && IsTrimmed(b)
    ensures Assemble([a, b]) == a + " " + b
  {
    JoinPair(a, b);
    var t := a + " " + b;
    assert t[0] == a[0] && t[|t| - 1] == b[|b| - 1];
    assert " " + a + " " + b == " " + t + [];
    StripUnique(" ", t, []);
  }

  lemma ExampleAssemble()
    ensures Assemble(["hello", "world"]) == "hello" + " " + "world"
  {
    assert IsTrimmed("hello") && IsTrimmed("world");
    AssembleTwo("hello", "world");
  }

  // ---------------------------------------------------------------------------
  // `url.split("=")[1]`
  // ---------------------------------------------------------------------------

  /** The first position of `c` in `s`. */
  function IndexOf(s: string, c: char): (r: Option<nat>)
    ensures r.None? <==> c !in s
    ensures r.Some? ==> r.value < |s| && s[r.value] == c
    ensures r.Some? ==> forall k :: 0 <= k < r.value ==> s[k] != c
    decreases |s|
  {
    if |s| == 0 then None
    else if s[0] == c then Some(0)
    else match IndexOf(s[1..], c)
      case None => None
      case Some(k) => Some(k + 1)
  }

  /** `url` is `a`, then `=`, then the second field `v`, then nothing or a further `=`. */
  predicate IsSecondField(url: string, a: string, v: string, c: string) {
    && url == a + "=" + v + c
    && '=' !in a
    && '=' !in v
    && (c == "" || c[0] == '=')
  }

  /** `url.split("=")[1]`, with `None` for the `IndexError` raised when `url` has no `=`. */
  function SplitId(url: string): (r: Option<string>)
    ensures r.None? <==> '=' !in url
    ensures r.Some? ==> exists a, c :: IsSecondField(url, a, r.value, c)
  {
    match IndexOf(url, '=')
    case None => None
    case Some(i) =>
      var rest := url[i + 1..];
      match IndexOf(rest, '=')
      case None =>
        FieldRunsToEnd(url, i);
        Some(rest)
      case Some(j) =>
        FieldRunsToNext(url, i, j);
        Some(rest[..j])
  }

  /** After the first `=` there is no other: the second field runs to the end. */
  lemma FieldRunsToEnd(url: string, i: nat)
    requires i < |url| && url[i] == '=' && '=' !in url[..i] && '=' !in url[i + 1..]
    ensures IsSecondField(url, url[..i], url[i + 1..], "")
  {
    assert url == url[..i] + "=" + url[i + 1..] + "";
  }

  /** The second field runs from the first `=` up to the next one, `j` characters later. */
  lemma FieldRunsToNext(url: string, i: nat, j: nat)
    requires i < |url| && url[i] == '=' && '=' !in url[..i]
    requires j < |url[i + 1..]| && url[i + 1..][j] == '=' && '=' !in url[i + 1..][..j]
    ensures IsSecondField(url, url[..i], url[i + 1..][..j], url[i + 1..][j..])
  {
    var rest := url[i + 1..];
    assert rest == rest[..j] + rest[j..];
    assert url == url[..i] + "=" + rest[..j] + rest[j..];
  }

  /** Conversely, a link laid out as `a=v` or `a=v=...` splits to `v`. */
  lemma SplitIdOfFields(url: string, a: string, v: string, c: string)
    requires IsSecondField(url, a, v, c)
    ensures SplitId(url) == Some(v)
  {
    assert url == a + "=" + (v + c);
    FirstEqualsAfter(url, a, v + c);
    var rest := url[|a| + 1..];
    if c == "" {
      assert rest == v;
    } else {
      assert rest == v + "=" + c[1..];
      FirstEqualsAfter(rest, v, c[1..]);
      assert rest[..|v|] == v;
    }
  }

  /** In `a + "=" + b` with no `=` in `a`, the first `=` is the one right after `a`. */
  lemma FirstEqualsAfter(s: string, a: string, b: string)
    requires s == a + "=" + b && '=' !in a
    ensures IndexOf(s, '=') == Some(|a|)
    ensures s[|a| + 1..] == b
  {
    assert s[..|a|] == a && s[|a|] == '=';
  }

  // ---------------------------------------------------------------------------
  // `extract_transcript_details`
  // ---------------------------------------------------------------------------

  /** What the transcript service answers for an identifier. */
  datatype FetchOutcome =
    | Fragments(texts: seq<string>)
    | CaptionsDisabled
    | FetchError

  function ExtractTranscriptDetails(url: string, fetch: string -> FetchOutcome): (r: Option<string>)
    ensures '=' !in url ==> r == None
    ensures r.Some? ==> IsTrimmed(r.value)
    ensures r.Some? <==> SplitId(url).Some? && fetch(SplitId(url).value).Fragments?
    ensures r.Some? ==> exists i :: StrippedAt(Join(fetch(SplitId(url).value).texts), r.value, i)
  {
    match SplitId(url)
    case None => None
    case Some(id) =>
      match fetch(id)
      case Fragments(texts) => Some(Assemble(texts))
      case CaptionsDisabled => None
      case FetchError => None
  }

  /** The watch prefix, cut at its `=`. */
  lemma WatchPrefixFields()
    ensures VideoId.WatchPrefix == "https://www.youtube.com/watch?v" + "="
    ensures '=' !in "https://www.youtube.com/watch?v"
  {
  }

  /** An identifier never holds `=`. */
  lemma VideoIdHasNoEquals(id: string)
    requires VideoId.IsVideoId(id)
    ensures '=' !in id
  {
    assert !VideoId.IsIdChar('=');
  }

  /**
    The identifier fetched is not the one the sidebar shows: for a watch link
    with a timestamp, `get_video_id` gives the eleven identifier characters while
    the fetch is asked for everything up to the next `=`, that is `<id>&t`.
   */
  lemma TimestampLinkFetchesOtherId(id: string, t: string, fetch: string -> FetchOutcome)
    requires VideoId.IsVideoId(id) && '=' !in t
    ensures VideoId.GetVideoId(VideoId.WatchUrl(id) + "&t=" + t) == Some(id)
    ensures SplitId(VideoId.WatchUrl(id) + "&t=" + t) == Some(id + "&t")
    ensures ExtractTranscriptDetails(VideoId.WatchUrl(id) + "&t=" + t, fetch).Some?
      == fetch(id + "&t").Fragments?
  {
    var link := VideoId.WatchUrl(id) + "&t=" + t;
    VideoId.WatchUrlIgnoresTrailer(id, "&t=" + t);
    assert link == VideoId.WatchUrl(id) + ("&t=" + t);
    var a := "https://www.youtube.com/watch?v";
    WatchPrefixFields();
    VideoIdHasNoEquals(id);
    assert '=' !in id + "&t";
    assert link == a + "=" + (id + "&t") + ("=" + t);
    SplitIdOfFields(link, a, id + "&t", "=" + t);
  }

  /** A short link names a video for the sidebar, but has no `=`, so no transcript is ever fetched. */
  lemma ShortLinkNeverFetched(id: string, fetch: string -> FetchOutcome)
    requires VideoId.IsVideoId(id)
    ensures VideoId.GetVideoId("https://youtu.be/" + id) == Some(id)
    ensures ExtractTranscriptDetails("https://youtu.be/" + id, fetch) == None
  {
    VideoId.ShortLinkNamesItsId(id);
    VideoIdHasNoEquals(id);
    assert '=' !in "https://youtu.be/";
    assert '=' !in "https://youtu.be/" + id;
  }
}
