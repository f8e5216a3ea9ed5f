/**
 * A worked example: an audio offer whose first format is payload type 111 is
 * rewritten so that ISAC at 16 kHz (103) becomes the default.
 */
module SdpExamples {
  import opened Wrappers
  import opened JsString
  import opened SdpUtils

  /** `m=audio 9 UDP/TLS/RTP/SAVPF 111 103 104`, written token by token. */
  const MediaLine: string := "m=audio" + " " + "9" + " " + "UDP/TLS/RTP/SAVPF" + " " + "111" + " " + "103" + " " + "104"
  const IsacLine: string := "a=rtpmap:103 ISAC/16000"
  const Offer: string := MediaLine + CRLF + IsacLine
  /** `m=audio 9 UDP/TLS/RTP/SAVPF 103 111 104`: the same line with 103 moved to the front. */
  const Preferred: string := "m=audio" + " " + "9" + " " + "UDP/TLS/RTP/SAVPF" + " " + "103" + " " + "111" + " " + "104"

  /** Two CRLF-free lines joined by CRLF split back into themselves. */
  lemma TwoLines(a: string, b: string)
    requires !Contains(a, CRLF) && !Contains(b, CRLF)
    ensures Split(a + CRLF + b, CRLF) == [a, b]
  {
    JoinCons(a, [b], CRLF);
    assert [a, b] == [a] + [b];
    CrlfBorderFree();
    SplitJoin([a, b], CRLF);
  }

  /** The offer consists of its media line and its rtpmap line. */
  lemma OfferLines()
    ensures Split(Offer, CRLF) == [MediaLine, IsacLine]
  {
    AbsentFirstChar(MediaLine, CRLF);
    AbsentFirstChar(IsacLine, CRLF);
    TwoLines(MediaLine, IsacLine);
  }

  /** A line with the prefix that contains `w` matches the search for `w`. */
  lemma MatchesInside(a: string, w: string, b: string, prefix: string)
    requires StartsWith(a, prefix)
    ensures LineMatches(a + w + b, prefix, w)
  {
    assert (a + w + b)[..|prefix|] == a[..|prefix|];
    LowerConcat(a, w);
    LowerConcat(a + w, b);
    ContainsSuffix(Lower(a), Lower(w));
    ContainsPrefix(Lower(a) + Lower(w), Lower(b), Lower(w));
  }

  /** The media line is the one searched for with `m=` and `audio`. */
  lemma AudioLineMatches()
    ensures LineMatches(MediaLine, "m=", "audio")
  {
    var l := Lower(MediaLine);
    assert l[2] == 'a' && l[3] == 'u' && l[4] == 'd' && l[5] == 'i' && l[6] == 'o';
    assert l[2..7] == "audio";
    assert Lower("audio") == "audio";
    assert OccursAt(l, Lower("audio"), 2);
    assert Contains(l, Lower("audio"));
    assert MediaLine[0] == 'm' && MediaLine[1] == '=';
    assert MediaLine[..2] == "m=";
  }

  /** The rtpmap line is the one searched for with the codec name. */
  lemma IsacLineMatches()
    ensures LineMatches(IsacLine, "a=rtpmap", "ISAC/16000")
  {
    assert IsacLine == "a=rtpmap:103 " + "ISAC/16000" + "";
    MatchesInside("a=rtpmap:103 ", "ISAC/16000", "", "a=rtpmap");
  }

  /** A line built as `a=rtpmap:<d> <w>/<n>...` matches the pattern with group `d`. */
  lemma RtpmapByParts(d: string, w: string, n: string, tail: string)
    requires d != "" && AllDigits(d)
    requires w != "" && forall k :: 0 <= k < |w| ==> IsWordChar(w[k])
    requires n != "" && IsDigit(n[0])
    ensures CodecPayloadType(RtpmapTag + d + " " + w + "/" + n + tail) == Some(d)
  {
    var s := RtpmapTag + d + " " + w + "/" + n + tail;
    var j := |RtpmapTag| + |d|;
    var k := j + 1 + |w|;
    assert s[..|RtpmapTag|] == RtpmapTag;
    assert s[|RtpmapTag|..j] == d;
    assert s[j] == ' ';
    assert forall m :: j + 1 <= m < k ==> s[m] == w[m - j - 1];
    assert WordSpan(s, j + 1, k);
    assert s[k] == '/' && s[k + 1] == n[0];
    assert RtpmapAt(s, 0, d);
    MatchAtComplete(s, 0, d);
  }

  /** The payload type read from the rtpmap line is 103. */
  lemma IsacPayload()
    ensures CodecPayloadType(IsacLine) == Some("103")
  {
    assert IsacLine == RtpmapTag + "103" + " " + "ISAC" + "/" + "16000" + "";
    assert AllDigits("103");
    assert forall k :: 0 <= k < |"ISAC"| ==> IsWordChar("ISAC"[k]);
    RtpmapByParts("103", "ISAC", "16000", "");
  }

  /** Joining six tokens with spaces. */
  lemma JoinSix(a: string, b: string, c: string, d: string, e: string, f: string)
    ensures Join([a, b, c, d, e, f], Space) == a + " " + b + " " + c + " " + d + " " + e + " " + f
  {
    var t := [a, b, c, d, e, f];
    assert t[5..] == [f];
    assert t[4..] == [e] + t[5..];
    JoinCons(e, t[5..], Space);
    assert t[3..] == [d] + t[4..];
    JoinCons(d, t[4..], Space);
    assert t[2..] == [c] + t[3..];
    JoinCons(c, t[3..], Space);
    assert t[1..] == [b] + t[2..];
    JoinCons(b, t[2..], Space);
    assert t == [a] + t[1..];
    JoinCons(a, t[1..], Space);
  }

  /** Six space-free tokens joined with spaces split back into themselves. */
  lemma SplitSix(a: string, b: string, c: string, d: string, e: string, f: string)
    requires ' ' !in a && ' ' !in b && ' ' !in c && ' ' !in d && ' ' !in e && ' ' !in f
    ensures Split(a + " " + b + " " + c + " " + d + " " + e + " " + f, Space) == [a, b, c, d, e, f]
  {
    JoinSix(a, b, c, d, e, f);
    ContainsChar(a, ' ');
    ContainsChar(b, ' ');
    ContainsChar(c, ' ');
    ContainsChar(d, ' ');
    ContainsChar(e, ' ');
    ContainsChar(f, ' ');
    SpaceBorderFree();
    SplitJoin([a, b, c, d, e, f], Space);
  }

  /** The tokens of the media line. */
  lemma MediaLineTokens()
    ensures Split(MediaLine, Space) == ["m=audio", "9", "UDP/TLS/RTP/SAVPF", "111", "103", "104"]
  {
    SplitSix("m=audio", "9", "UDP/TLS/RTP/SAVPF", "111", "103", "104");
  }

  /** Removing the middle one of three tokens. */
  lemma RemoveMiddle(a: string, b: string, c: string)
    requires a != b && c != b
    ensures RemoveAll([a, b, c], b) == [a, c]
  {
    assert [c][1..] == [];
    assert RemoveAll([c], b) == [c];
    assert [b, c][1..] == [c];
    assert RemoveAll([b, c], b) == [c];
    assert [a, b, c][1..] == [b, c];
  }

  /** Reordering the tokens puts 103 fourth and drops its old place. */
  lemma PreferredTokens()
    ensures PreferTokens(["m=audio", "9", "UDP/TLS/RTP/SAVPF", "111", "103", "104"], "103") ==
      ["m=audio", "9", "UDP/TLS/RTP/SAVPF", "103", "111", "104"]
  {
    var e := ["m=audio", "9", "UDP/TLS/RTP/SAVPF", "111", "103", "104"];
    assert e[3..] == ["111", "103", "104"];
    assert "111"[2] != "103"[2] && "104"[2] != "103"[2];
    RemoveMiddle("111", "103", "104");
  }

  /** The reordered tokens spell the preferred line. */
  lemma PreferredJoin()
    ensures Join(["m=audio", "9", "UDP/TLS/RTP/SAVPF", "103", "111", "104"], Space) == Preferred
  {
    JoinSix("m=audio", "9", "UDP/TLS/RTP/SAVPF", "103", "111", "104");
  }

  /** `DefaultCodecLine` by its three stages. */
  lemma RewriteLineBy(line: string, p: string, e: seq<string>, t: seq<string>, r: string)
    requires Split(line, Space) == e && PreferTokens(e, p) == t && Join(t, Space) == r
    ensures DefaultCodecLine(line, p) == r
  {
  }

  /** `setDefaultCodec` turns the media line into the preferred line. */
  lemma RewrittenLine()
    ensures DefaultCodecLine(MediaLine, "103") == Preferred
  {
    MediaLineTokens();
    PreferredTokens();
    PreferredJoin();
    RewriteLineBy(MediaLine, "103", ["m=audio", "9", "UDP/TLS/RTP/SAVPF", "111", "103", "104"],
      ["m=audio", "9", "UDP/TLS/RTP/SAVPF", "103", "111", "104"], Preferred);
  }

  /** The rewrite of a two-line description whose second line maps the codec. */
  lemma PreferTwoLines(a: string, b: string, mediaType: string, codec: string, p: string, a': string)
    requires codec != "" && p != ""
    requires Split(a + CRLF + b, CRLF) == [a, b]
    requires LineMatches(a, "m=", mediaType)
    requires !LineMatches(a, "a=rtpmap", codec) && LineMatches(b, "a=rtpmap", codec)
    requires CodecPayloadType(b) == Some(p)
    requires DefaultCodecLine(a, p) == a'
    ensures PreferCodec(a + CRLF + b, mediaType, codec) == a' + CRLF + b
  {
    var lines := [a, b];
    assert FirstMatch(lines, 0, 2, "m=", mediaType) == Some(0);
    assert FirstMatch(lines, 0, 2, "a=rtpmap", codec) == Some(1);
    assert ResolvedPayload(lines, codec) == Some(p);
    assert lines[0 := a'] == [a'] + [b];
    JoinCons(a', [b], CRLF);
  }

  /** Preferring ISAC in the offer moves 103 to the front of the audio formats. */
  lemma IsacPreferred()
    ensures PreferCodec(Offer, "audio", "ISAC/16000") == Preferred + CRLF + IsacLine
  {
    OfferLines();
    AudioLineMatches();
    MediaLineIsNotRtpmap(MediaLine, "ISAC/16000");
    IsacLineMatches();
    IsacPayload();
    RewrittenLine();
    PreferTwoLines(MediaLine, IsacLine, "audio", "ISAC/16000", "103", Preferred);
  }
}
