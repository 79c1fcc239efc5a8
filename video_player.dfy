/**
 * The player page: the frame's address is the endpoint's url followed by the
 * video url encoded as a URI component, with nothing in between.
 */
module VideoPlayer {
  import opened Wrappers
  import opened UriComponent

  /**
   * `apiUrl + encodeURIComponent(videoUrl)`: the endpoint url is kept as its
   * prefix, the rest decodes back to the video url, and none of the rest can
   * add a path, query, fragment or parameter separator to the endpoint url.
   */
  function PlayerSource(apiUrl: string, videoUrl: string): (src: string)
    ensures |apiUrl| <= |src| && src[..|apiUrl|] == apiUrl
    ensures Decode(src[|apiUrl|..]) == Some(videoUrl)
    ensures forall i :: |apiUrl| <= i < |src| ==> !IsDelimiter(src[i])
  {
    var encoded := Encode(videoUrl);
    DecodeEncode(videoUrl);
    EncodeHasNoDelimiters(videoUrl);
    assert (apiUrl + encoded)[|apiUrl|..] == encoded;
    assert forall i :: |apiUrl| <= i < |apiUrl + encoded| ==> (apiUrl + encoded)[i] == encoded[i - |apiUrl|];
    apiUrl + encoded
  }

  /** The same endpoint never plays two different video urls from one address. */
  lemma PlayerSourceInjective(apiUrl: string, v1: string, v2: string)
    requires PlayerSource(apiUrl, v1) == PlayerSource(apiUrl, v2)
    ensures v1 == v2
  {
  }

  // ---------------------------------------------------------------------
  // Worked examples. Each is taken apart into short pieces whose encodings
  // are computed on their own and then put back together.
  // ---------------------------------------------------------------------

  /** The pieces one after another. */
  function Concat(parts: seq<string>): string {
    if parts == [] then [] else parts[0] + Concat(parts[1..])
  }

  /** Encoding a string piece by piece. */
  lemma {:induction false} EncodeConcat(parts: seq<string>, encs: seq<string>)
    requires |parts| == |encs|
    requires forall i :: 0 <= i < |parts| ==> Encode(parts[i]) == encs[i]
    ensures Encode(Concat(parts)) == Concat(encs)
  {
    if parts != [] {
      EncodeConcat(parts[1..], encs[1..]);
      EncodeAppend(parts[0], Concat(parts[1..]));
    }
  }

  /** The address for a video url whose encoding is known. */
  lemma PlayerSourceOf(apiUrl: string, videoUrl: string, encoded: string)
    requires Encode(videoUrl) == encoded
    ensures PlayerSource(apiUrl, videoUrl) == apiUrl + encoded
  {
  }

  // The youku example is split into pieces of at most five characters, and
  // each literal concatenation is a lemma of its own: evaluating the encoding
  // of the whole literal at once is beyond the verifier's resource budget.
  const YoukuParts := ["https", "://", "v.you", "ku.co", "m", "/a b"]
  const YoukuEncodedParts := ["https", "%3A%2F%2F", "v.you", "ku.co", "m", "%2Fa%20b"]

  lemma YoukuPart0() ensures Encode("https") == "https" {}
  lemma YoukuPart1() ensures Encode("://") == "%3A%2F%2F" {}
  lemma YoukuPart2() ensures Encode("v.you") == "v.you" {}
  lemma YoukuPart3() ensures Encode("ku.co") == "ku.co" {}
  lemma YoukuPart4() ensures Encode("m") == "m" {}
  lemma YoukuPart5() ensures Encode("/a b") == "%2Fa%20b" {}

  lemma YoukuPieces()
    ensures |YoukuParts| == |YoukuEncodedParts|
    ensures forall i :: 0 <= i < |YoukuParts| ==> Encode(YoukuParts[i]) == YoukuEncodedParts[i]
  {
    YoukuPart0(); YoukuPart1(); YoukuPart2(); YoukuPart3(); YoukuPart4(); YoukuPart5();
  }

  lemma YoukuJoined()
    ensures Concat(YoukuParts) == "https://v.youku.com/a b"
  {
  }

  lemma YoukuEncodedJoined()
    ensures Concat(YoukuEncodedParts) == "https%3A%2F%2Fv.youku.com%2Fa%20b"
  {
  }

  lemma YoukuAddress()
    ensures "https://api.example/play?u=" + "https%3A%2F%2Fv.youku.com%2Fa%20b"
         == "https://api.example/play?u=https%3A%2F%2Fv.youku.com%2Fa%20b"
  {
  }

  /** An endpoint url ending in a query parameter, and a video url with a path and a space. */
  lemma ExampleYouku()
    ensures PlayerSource("https://api.example/play?u=", "https://v.youku.com/a b")
         == "https://api.example/play?u=https%3A%2F%2Fv.youku.com%2Fa%20b"
  {
    YoukuPieces();
    EncodeConcat(YoukuParts, YoukuEncodedParts);
    YoukuJoined();
    YoukuEncodedJoined();
    PlayerSourceOf("https://api.example/play?u=", "https://v.youku.com/a b",
                   "https%3A%2F%2Fv.youku.com%2Fa%20b");
    YoukuAddress();
  }

  // Kept apart from ExampleUnknownEndpoint so that the literal encoding is
  // evaluated in a small proof context of its own.
  lemma EncodeShortUrl()
    ensures Encode("a b") == "a%20b"
  {
  }

  /** With no endpoint found (url "") the address for "a b" is its encoding alone. */
  lemma ExampleUnknownEndpoint()
    ensures PlayerSource("", "a b") == "a%20b"
  {
    EncodeShortUrl();
    PlayerSourceOf("", "a b", "a%20b");
  }

  lemma EncodeNonAscii()
    ensures Encode("\U{89C6}") == "%E8%A7%86"
  {
    assert Utf8Encode('\U{89C6}') == [0xE8, 0xA7, 0x86];
  }

  /** A character outside ASCII becomes the triplets of its UTF-8 bytes. */
  lemma ExampleNonAscii()
    ensures PlayerSource("p?u=", "\U{89C6}") == "p?u=%E8%A7%86"
  {
    EncodeNonAscii();
    PlayerSourceOf("p?u=", "\U{89C6}", "%E8%A7%86");
  }
}
