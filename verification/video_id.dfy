/**
  Video-identifier extraction: the search `(?:v=|/)([0-9A-Za-z_-]{11})` that the
  sidebar runs over the link the user typed, written as a left-to-right scan.

  A match at position `p` is either `v=` at `p` followed by eleven identifier
  characters, or `/` at `p` followed by eleven identifier characters. The two
  alternatives start with different characters, so at most one applies at any
  position, and the search returns the capture of the leftmost position that
  matches. There is no end anchor: whatever follows the eleven characters is
  ignored.
 */
module VideoId {
  import opened Wrappers

  /** Length of a video identifier: the `{11}` of the pattern. */
  const IdLength: nat := 11

  /** The character class `[0-9A-Za-z_-]`. */
  predicate IsIdChar(c: char) {
    || ('0' <= c <= '9')
    || ('A' <= c <= 'Z')
    || ('a' <= c <= 'z')
    || c == '_'
    || c == '-'
  }

  /** A string of the identifier's shape: eleven characters, each in the class. */
  predicate IsVideoId(id: string) {
    |id| == IdLength && forall i :: 0 <= i < |id| ==> IsIdChar(id[i])
  }

  /** Eleven identifier characters start at `start` in `s`. */
  predicate IdRunAt(s: string, start: nat) {
    start + IdLength <= |s| && IsVideoId(s[start..start + IdLength])
  }

  /** Where the capture group starts when the pattern matches at `p`. */
  function CaptureStart(s: string, p: nat): nat
    requires p < |s|
  {
    if s[p] == '/' then p + 1 else p + 2
  }

  /** The pattern matches at position `p`: first alternative `v=`, then `/`. */
  predicate MatchesAt(s: string, p: nat) {
    || (p + 2 <= |s| && s[p] == 'v' && s[p + 1] == '=' && IdRunAt(s, p + 2))
    || (p < |s| && s[p] == '/' && IdRunAt(s, p + 1))
  }

  /** The text of group 1 for a match at `p`. */
  function CaptureAt(s: string, p: nat): (id: string)
    requires MatchesAt(s, p)
    ensures IsVideoId(id)
    ensures id == s[CaptureStart(s, p)..CaptureStart(s, p) + IdLength]
  {
    var c := CaptureStart(s, p);
    s[c..c + IdLength]
  }

  /** `p` is where `re.search` reports its match: it matches and nothing earlier does. */
  predicate IsLeftmostMatch(s: string, p: nat) {
    MatchesAt(s, p) && forall q :: 0 <= q < p ==> !MatchesAt(s, q)
  }

  /** The first position at or after `from` where the pattern matches. */
  function FirstMatchFrom(s: string, from: nat): (r: Option<nat>)
    ensures r.Some? ==> from <= r.value < |s| && MatchesAt(s, r.value)
    ensures r.Some? ==> forall q :: from <= q < r.value ==> !MatchesAt(s, q)
    ensures r.None? ==> forall q :: from <= q ==> !MatchesAt(s, q)
    decreases |s| - from
  {
    if from >= |s| then None
    else if MatchesAt(s, from) then Some(from)
    else FirstMatchFrom(s, from + 1)
  }

  /** At most one position is the leftmost match. */
  lemma LeftmostIsUnique(s: string, p: nat, q: nat)
    requires IsLeftmostMatch(s, p) && IsLeftmostMatch(s, q)
    ensures p == q
  {
  }

  /** `get_video_id`: group 1 of the leftmost match, or `None` when nothing matches. */
  function GetVideoId(link: string): (r: Option<string>)
    ensures r.Some? ==> IsVideoId(r.value)
    ensures r.None? <==> forall p: nat :: !MatchesAt(link, p)
    ensures r.Some? ==> exists p: nat :: IsLeftmostMatch(link, p) && r.value == CaptureAt(link, p)
  {
    match FirstMatchFrom(link, 0)
    case None => None
    case Some(p) => Some(CaptureAt(link, p))
  }

  /** Whenever the leftmost match is at `p`, the result is the eleven characters after its prefix. */
  lemma GetVideoIdIsLeftmostCapture(link: string, p: nat)
    requires IsLeftmostMatch(link, p)
    ensures GetVideoId(link) == Some(CaptureAt(link, p))
  {
    var r := GetVideoId(link);
    assert MatchesAt(link, p);
    assert r.Some?;
    var p' :| IsLeftmostMatch(link, p') && r.value == CaptureAt(link, p');
    LeftmostIsUnique(link, p, p');
  }

  /** The character-class test of the eleven characters at `start`, one at a time. */
  method ScanRun(s: string, start: nat) returns (ok: bool)
    ensures ok <==> IdRunAt(s, start)
  {
    if start + IdLength > |s| {
      return false;
    }
    var k := 0;
    while k < IdLength
      invariant 0 <= k <= IdLength
      invariant forall j :: start <= j < start + k ==> IsIdChar(s[j])
    {
      if !IsIdChar(s[start + k]) {
        assert s[start..start + IdLength][k] == s[start + k];
        return false;
      }
      k := k + 1;
    }
    ok := true;
  }

  /** The regular-expression search as an explicit scan, trying `v=` before `/` at each position. */
  method ScanVideoId(link: string) returns (r: Option<string>)
    ensures r == GetVideoId(link)
  {
    var i := 0;
    while i < |link|
      invariant 0 <= i <= |link|
      invariant forall q :: 0 <= q < i ==> !MatchesAt(link, q)
    {
      if i + 2 <= |link| && link[i] == 'v' && link[i + 1] == '=' {
        var ok := ScanRun(link, i + 2);
        if ok {
          GetVideoIdIsLeftmostCapture(link, i);
          return Some(link[i + 2..i + 2 + IdLength]);
        }
      }
      if link[i] == '/' {
        var ok := ScanRun(link, i + 1);
        if ok {
          GetVideoIdIsLeftmostCapture(link, i);
          return Some(link[i + 1..i + 1 + IdLength]);
        }
      }
      i := i + 1;
    }
    r := None;
  }

  /** No match starts inside a piece of the link that holds neither `v` nor `/`. */
  lemma NoMatchInPiece(s: string, pre: string, piece: string)
    requires pre + piece <= s
    requires 'v' !in piece && '/' !in piece
    ensures forall q :: |pre| <= q < |pre| + |piece| ==> !MatchesAt(s, q)
  {
    forall q | |pre| <= q < |pre| + |piece|
      ensures !MatchesAt(s, q)
    {
      assert s[q] == (pre + piece)[q] == piece[q - |pre|];
    }
  }

  /** A match at `p` is ruled out by one character of its run that is outside the class. */
  lemma NoMatchAtBadRun(s: string, p: nat, bad: nat)
    requires p < |s|
    requires CaptureStart(s, p) <= bad < CaptureStart(s, p) + IdLength
    requires bad < |s| && !IsIdChar(s[bad])
    ensures !MatchesAt(s, p)
  {
    var c := CaptureStart(s, p);
    if c + IdLength <= |s| {
      var run := s[c..c + IdLength];
      assert run[bad - c] == s[bad];
      assert !IsVideoId(run);
    }
    assert MatchesAt(s, p) ==> IdRunAt(s, c);
  }

  /** `v=` followed by an identifier matches, and captures that identifier. */
  lemma MatchAfterV(pre: string, id: string, post: string)
    requires IsVideoId(id)
    ensures MatchesAt(pre + "v=" + id + post, |pre|)
    ensures CaptureAt(pre + "v=" + id + post, |pre|) == id
  {
    var s := pre + "v=" + id + post;
    assert s[|pre|] == 'v' && s[|pre| + 1] == '=';
    assert s[|pre| + 2..|pre| + 2 + IdLength] == id;
  }

  /** `/` followed by an identifier matches, and captures that identifier. */
  lemma MatchAfterSlash(pre: string, id: string, post: string)
    requires IsVideoId(id)
    ensures MatchesAt(pre + "/" + id + post, |pre|)
    ensures CaptureAt(pre + "/" + id + post, |pre|) == id
  {
    var s := pre + "/" + id + post;
    assert s[|pre|] == '/';
    assert s[|pre| + 1..|pre| + 1 + IdLength] == id;
  }

  /** The scheme every link in the lemmas below starts with. */
  const Scheme: string := "https://"

  /** The scheme, cut into the piece without `/` and its two slashes. */
  lemma SchemePieces()
    ensures Scheme == "https:" + "/" + "/"
  {
  }

  /**
    No match starts before the end of the host of a link that begins
    `https://<host>`, when the host holds no `v` or `/` and has a
    non-identifier character among its first eleven.
   */
  lemma NoMatchInSchemeAndHost(s: string, host: string, k: nat)
    requires Scheme + host <= s
    requires 'v' !in host && '/' !in host && k < |host| && k < IdLength && !IsIdChar(host[k])
    ensures forall q :: 0 <= q < |Scheme| + |host| ==> !MatchesAt(s, q)
  {
    SchemePieces();
    NoMatchInPiecesAndHost(s, host, k);
  }

  /** `NoMatchInSchemeAndHost`, with the scheme given as its pieces. */
  lemma NoMatchInPiecesAndHost(s: string, host: string, k: nat)
    requires "https:" + "/" + "/" + host <= s
    requires 'v' !in host && '/' !in host && k < |host| && k < IdLength && !IsIdChar(host[k])
    ensures forall q :: 0 <= q < |Scheme| + |host| ==> !MatchesAt(s, q)
  {
    SchemePieces();
    var pre := "https:" + "/" + "/";
    assert s[..8 + |host|] == pre + host;
    assert s[6] == '/' && s[7] == '/' && s[8 + k] == host[k];
    NoMatchInPiece(s, "", "https:");
    NoMatchAtBadRun(s, 6, 7);
    NoMatchAtBadRun(s, 7, 8 + k);
    NoMatchInPiece(s, pre, host);
  }

  /**
    A link `https://<host>/<path>v=<id><trailer>` whose host and path hold no
    `v` or `/`, and each of which has a non-identifier character among its
    first eleven, names `<id>`: the slashes before the host and before the path
    are not followed by eleven identifier characters, so `v=` is the leftmost match.
   */
  lemma WatchLinkNamesId(host: string, k: nat, path: string, m: nat, id: string, trailer: string)
    requires 'v' !in host && '/' !in host && k < |host| && k < IdLength && !IsIdChar(host[k])
    requires 'v' !in path && '/' !in path && m < |path| && m < IdLength && !IsIdChar(path[m])
    requires IsVideoId(id)
    ensures GetVideoId(Scheme + host + "/" + path + "v=" + id + trailer) == Some(id)
  {
    SchemePieces();
    var pre := "https:" + "/" + "/";
    var s := pre + host + "/" + path + "v=" + id + trailer;
    NoMatchBeforePathEnd(s, host, k, path, m);
    MatchAfterV(pre + host + "/" + path, id, trailer);
    GetVideoIdIsLeftmostCapture(s, |pre| + |host| + 1 + |path|);
  }

  /** The first part of `WatchLinkNamesId`: nothing matches before the end of the path. */
  lemma NoMatchBeforePathEnd(s: string, host: string, k: nat, path: string, m: nat)
    requires Scheme + host + "/" + path <= s
    requires 'v' !in host && '/' !in host && k < |host| && k < IdLength && !IsIdChar(host[k])
    requires 'v' !in path && '/' !in path && m < |path| && m < IdLength && !IsIdChar(path[m])
    ensures forall q :: 0 <= q < |Scheme| + |host| + 1 + |path| ==> !MatchesAt(s, q)
  {
    SchemePieces();
    var pre := "https:" + "/" + "/";
    var h := |pre| + |host|;
    assert s[..h + 1 + |path|] == pre + host + "/" + path;
    NoMatchInSchemeAndHost(s, host, k);
    assert s[h] == '/' && s[h + 1 + m] == path[m];
    NoMatchAtBadRun(s, h, h + 1 + m);
    NoMatchInPiece(s, pre + host + "/", path);
  }

  /**
    A link `https://<host>/<id><trailer>` whose host holds no `v` or `/` and has
    a non-identifier character among its first eleven names `<id>` through the
    `/` alternative.
   */
  lemma ShortLinkNamesId(host: string, k: nat, id: string, trailer: string)
    requires 'v' !in host && '/' !in host && k < |host| && k < IdLength && !IsIdChar(host[k])
    requires IsVideoId(id)
    ensures GetVideoId(Scheme + host + "/" + id + trailer) == Some(id)
  {
    SchemePieces();
    var pre := "https:" + "/" + "/";
    var s := pre + host + "/" + id + trailer;
    NoMatchInSchemeAndHost(s, host, k);
    MatchAfterSlash(pre + host, id, trailer);
    GetVideoIdIsLeftmostCapture(s, |pre| + |host|);
  }

  /** The watch URL the sidebar embeds for an identifier. */
  const WatchPrefix: string := "https://www.youtube.com/watch?v="

  function WatchUrl(id: string): (url: string)
    requires IsVideoId(id)
    ensures |url| == |WatchPrefix| + IdLength
  {
    WatchPrefix + id
  }

  /** The watch prefix, cut where the scan needs it. */
  lemma WatchPrefixPieces()
    ensures WatchPrefix == Scheme + "www.youtube.com" + "/" + "watch?" + "v="
  {
  }

  /**
    The watch URL for an identifier, followed by anything at all (a timestamp
    such as `&t=5`, say), gives back the identifier: the search has no end anchor.
   */
  lemma WatchUrlIgnoresTrailer(id: string, trailer: string)
    requires IsVideoId(id)
    ensures GetVideoId(WatchUrl(id) + trailer) == Some(id)
  {
    var host, path := "www.youtube.com", "watch?";
    WatchPrefixPieces();
    assert host[3] == '.' && path[5] == '?';
    WatchLinkNamesId(host, 3, path, 5, id, trailer);
  }

  /** The embedded watch URL gives back the identifier it was built from. */
  lemma WatchUrlRoundTrip(id: string)
    requires IsVideoId(id)
    ensures GetVideoId(WatchUrl(id)) == Some(id)
  {
    WatchUrlIgnoresTrailer(id, "");
    assert WatchUrl(id) + "" == WatchUrl(id);
  }

  /** The identifier of the examples below. */
  const ExampleId: string := "dQw4w9WgXcQ"

  lemma ExampleIdIsVideoId()
    ensures IsVideoId(ExampleId)
  {
  }

  /** A watch link on another host: the `v=` alternative supplies the identifier. */
  lemma ExampleWatchLink()
    ensures GetVideoId("https://example.com/watch?v=" + ExampleId) == Some(ExampleId)
  {
    var host, path := "example.com", "watch?";
    assert "https://example.com/watch?v=" == Scheme + host + "/" + path + "v=";
    assert host[7] == '.' && path[5] == '?';
    ExampleIdIsVideoId();
    WatchLinkNamesId(host, 7, path, 5, ExampleId, "");
    assert "https://example.com/watch?v=" + ExampleId + "" == "https://example.com/watch?v=" + ExampleId;
  }

  /** A short link: the `/` alternative supplies the identifier, whatever it is. */
  lemma ShortLinkNamesItsId(id: string)
    requires IsVideoId(id)
    ensures GetVideoId("https://youtu.be/" + id) == Some(id)
  {
    var host := "youtu.be";
    assert "https://youtu.be/" == Scheme + host + "/";
    assert host[5] == '.';
    ShortLinkNamesId(host, 5, id, "");
    assert "https://youtu.be/" + id + "" == "https://youtu.be/" + id;
  }

  /** A link whose only path segment is too short has no identifier. */
  lemma ExampleInvalidLink()
    ensures GetVideoId("https://example.com/invalid") == None
  {
    var url := Scheme + "example.com" + "/" + "in" + "v" + "alid";
    assert "https://example.com/invalid" == url;
    InvalidLinkHasNoMatch(url);
  }

  lemma InvalidLinkHasNoMatch(url: string)
    requires url == Scheme + "example.com" + "/" + "in" + "v" + "alid"
    ensures forall p: nat :: !MatchesAt(url, p)
  {
    var host := "example.com";
    assert host[7] == '.';
    NoMatchInSchemeAndHost(url, host, 7);
    assert |url| == 27 && url[22] == 'v' && url[23] == 'a';
    assert !MatchesAt(url, 19);
    NoMatchInPiece(url, Scheme + host + "/", "in");
    NoMatchInPiece(url, Scheme + host + "/" + "in" + "v", "alid");
  }

  /** What the sidebar shows for the link field (app.py lines 105-111). */
  datatype Preview = NoLink | Embed(url: string) | InvalidLink

  function SidebarPreview(link: string): (r: Preview)
    ensures r.NoLink? <==> link == ""
    ensures r.InvalidLink? <==> link != "" && GetVideoId(link).None?
    ensures r.Embed? ==> exists id :: IsVideoId(id) && r.url == WatchUrl(id) && GetVideoId(link) == Some(id)
  {
    if link == "" then NoLink
    else match GetVideoId(link)
      case None => InvalidLink
      case Some(id) => Embed(WatchUrl(id))
  }

  /** The embedded video is the one the link names: reading the embed URL back gives the same identifier. */
  lemma PreviewNamesSameVideo(link: string)
    requires SidebarPreview(link).Embed?
    ensures GetVideoId(SidebarPreview(link).url) == GetVideoId(link)
  {
    var id := GetVideoId(link).value;
    WatchUrlRoundTrip(id);
  }
}
