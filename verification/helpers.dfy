/** `is_cli_user_agent` of app/utils/helpers.py: recognising command-line download tools by their User-Agent. */
module Helpers {
  import opened Wrappers
  import opened Strings

  /** The tool names looked for, in the order they are tried. */
  const CliAgents: seq<string> := ["curl", "wget", "httpie", "python-requests", "aria2", "libwww-perl"]

  /** `any(agent in hay for agent in agents)`, tried left to right. */
  predicate AnyContained(agents: seq<string>, hay: string)
    decreases |agents|
  {
    agents != [] && (Contains(hay, agents[0]) || AnyContained(agents[1..], hay))
  }

  /** `is_cli_user_agent(user_agent)`: False for a missing or empty header, else a case-insensitive substring search. */
  predicate IsCliUserAgent(userAgent: Option<string>)
  {
    userAgent.Some? && userAgent.value != [] && AnyContained(CliAgents, AsciiLower(userAgent.value))
  }

  /** The left-to-right search succeeds exactly when some listed name occurs in hay. */
  lemma {:induction false} AnyContainedSpec(agents: seq<string>, hay: string)
    ensures AnyContained(agents, hay) <==> exists k :: 0 <= k < |agents| && OccursIn(agents[k], hay)
    decreases |agents|
  {
    if agents != [] {
      ContainsIffOccurs(hay, agents[0]);
      AnyContainedSpec(agents[1..], hay);
      if exists k :: 0 <= k < |agents| && OccursIn(agents[k], hay) {
        var k :| 0 <= k < |agents| && OccursIn(agents[k], hay);
        if k > 0 {
          assert agents[1..][k - 1] == agents[k];
        }
      }
      if AnyContained(agents[1..], hay) {
        var k :| 0 <= k < |agents[1..]| && OccursIn(agents[1..][k], hay);
        assert agents[k + 1] == agents[1..][k];
      }
    }
  }

  /**
    A user agent is a command-line tool exactly when it is present, not
    empty, and one of the six names occurs somewhere in its lowercase form.
  */
  lemma IsCliUserAgentSpec(userAgent: Option<string>)
    ensures IsCliUserAgent(userAgent) <==>
              userAgent.Some? && userAgent.value != [] &&
              exists k :: 0 <= k < |CliAgents| && OccursIn(CliAgents[k], AsciiLower(userAgent.value))
  {
    if userAgent.Some? {
      AnyContainedSpec(CliAgents, AsciiLower(userAgent.value));
    }
  }

  /** A missing or empty header is never taken for a tool. */
  lemma NoUserAgent()
    ensures !IsCliUserAgent(None)
    ensures !IsCliUserAgent(Some(""))
  {
  }

  /** needle cannot occur in hay when one of its characters is nowhere in hay. */
  lemma AbsentChar(hay: string, needle: string, k: nat)
    requires k < |needle| && needle[k] !in hay
    ensures !OccursIn(needle, hay)
  {
    forall i | 0 <= i <= |hay| - |needle|
      ensures !OccursAt(needle, hay, i)
    {
      assert hay[i..i + |needle|][k] == hay[i + k];
    }
  }

  /** A header that starts with one of the names, in any case, is a tool. */
  lemma {:induction false} PrefixDetected(ua: string, k: nat)
    requires k < |CliAgents| && CliAgents[k] <= AsciiLower(ua)
    ensures IsCliUserAgent(Some(ua))
  {
    assert OccursAt(CliAgents[k], AsciiLower(ua), 0);
    IsCliUserAgentSpec(Some(ua));
  }

  /** A curl request is recognised (tests/integration/test_cli_blocking.py:29). */
  lemma CurlDetected()
    ensures IsCliUserAgent(Some("curl/7.68.0"))
  {
    CurlPrefix("curl/7.68.0");
  }

  lemma CurlPrefix(ua: string)
    requires ua == "curl/7.68.0"
    ensures CliAgents[0] <= AsciiLower(ua)
    ensures IsCliUserAgent(Some(ua))
  {
    AsciiLowerAt(ua);
    assert AsciiLower(ua)[..4] == "curl";
    PrefixDetected(ua, 0);
  }

  /** Matching ignores case: "Wget/1.20" is recognised through "wget" (tests/integration/test_cli_blocking.py:49). */
  lemma WgetDetected()
    ensures IsCliUserAgent(Some("Wget/1.20"))
  {
    WgetPrefix("Wget/1.20");
  }

  lemma WgetPrefix(ua: string)
    requires ua == "Wget/1.20"
    ensures CliAgents[1] <= AsciiLower(ua)
    ensures IsCliUserAgent(Some(ua))
  {
    AsciiLowerAt(ua);
    assert AsciiLower(ua)[..4] == "wget";
    PrefixDetected(ua, 1);
  }

  /** A browser's header is let through (tests/integration/test_cli_blocking.py:34). */
  lemma BrowserNotDetected()
    ensures !IsCliUserAgent(Some("Mozilla/5.0"))
  {
    BrowserLowered("Mozilla/5.0");
  }

  lemma BrowserLowered(ua: string)
    requires ua == "Mozilla/5.0"
    ensures AsciiLower(ua) == "mozilla/5.0"
    ensures !IsCliUserAgent(Some(ua))
  {
    var hay := AsciiLower(ua);
    AsciiLowerAt(ua);
    assert hay == "mozilla/5.0";
    NoAgentInBrowser(hay);
    IsCliUserAgentSpec(Some(ua));
  }

  /** None of the six names occurs in "mozilla/5.0": each has a letter the header lacks. */
  lemma NoAgentInBrowser(hay: string)
    requires hay == "mozilla/5.0"
    ensures forall k :: 0 <= k < |CliAgents| ==> !OccursIn(CliAgents[k], hay)
  {
    AbsentChar(hay, "curl", 0);
    AbsentChar(hay, "wget", 0);
    AbsentChar(hay, "httpie", 0);
    AbsentChar(hay, "python-requests", 0);
    AbsentChar(hay, "aria2", 1);
    AbsentChar(hay, "libwww-perl", 2);
  }
}
