/** The host allow-list of `is_valid_youtube_url` (app.py:14-18). */
module Hosts {

  /** The four accepted host names, in the source's order. */
  const YoutubeDomains: seq<string> := ["youtube.com", "www.youtube.com", "youtu.be", "m.youtube.com"]

  /** `parsed.netloc in youtube_domains`: exact membership of the network location. */
  predicate IsValidYoutubeHost(netloc: string)
    ensures IsValidYoutubeHost(netloc) <==>
      netloc == "youtube.com" || netloc == "www.youtube.com" || netloc == "youtu.be" || netloc == "m.youtube.com"
  {
    netloc in YoutubeDomains
  }

  /** No accepted host contains a colon, so a host with a port is refused. */
  lemma HostWithPortRejected(host: string, port: string)
    ensures !IsValidYoutubeHost(host + ":" + port)
  {
    assert (host + ":" + port)[|host|] == ':';
  }

  /** An accepted host followed by anything non-empty is refused: no accepted
      host is a proper prefix of another, so a suffix match is never accepted. */
  lemma ExtendedHostRejected(host: string, suffix: string)
    requires IsValidYoutubeHost(host)
    requires suffix != ""
    ensures !IsValidYoutubeHost(host + suffix)
  {
    var n := host + suffix;
    assert |n| > |host| && n[..|host|] == host;
    // each longer accepted name differs from the shorter one within its length
    if host == "youtube.com" {
      assert n[0] == 'y';
      assert n != "www.youtube.com" && n != "m.youtube.com";
    } else if host == "youtu.be" {
      assert n[0] == 'y' && n[5] == '.';
      assert n != "youtube.com" && n != "www.youtube.com" && n != "m.youtube.com";
    } else if host == "m.youtube.com" {
      assert n[0] == 'm';
      assert n != "www.youtube.com";
    }
  }

  /** Lookalike hosts that a substring or suffix test would let through. */
  lemma LookalikeHostsRejected()
    ensures !IsValidYoutubeHost("youtube.com.evil.net")
    ensures !IsValidYoutubeHost("evilyoutube.com")
    ensures !IsValidYoutubeHost("youtube.com:443")
    ensures !IsValidYoutubeHost("music.youtube.com")
    ensures IsValidYoutubeHost("m.youtube.com")
  {
    ExtendedHostRejected("youtube.com", ".evil.net");
    ExtendedHostRejected("youtube.com", ":443");
    assert "evilyoutube.com"[0] == 'e';
    assert "music.youtube.com"[0] == 'm' && "music.youtube.com"[1] == 'u';
  }
}
