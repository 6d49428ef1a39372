/**
 * `build_common_headers`: the browser-like header set attached to every
 * request. The random choice of a User-Agent is the parameter `pick`,
 * the index `random.choice` would draw.
 */
module Headers {
  import opened Wrappers

  const UserAgents: seq<string> := [
    "Mozilla/5.0 (Windows NT 10.0; Win64; x64) AppleWebKit/537.36 (KHTML, like Gecko) Chrome/123.0.0.0 Safari/537.36",
    "Mozilla/5.0 (Macintosh; Intel Mac OS X 10_15_7) AppleWebKit/537.36 (KHTML, like Gecko) Chrome/123.0.0.0 Safari/537.36",
    "Mozilla/5.0 (X11; Linux x86_64) AppleWebKit/537.36 (KHTML, like Gecko) Chrome/123.0.0.0 Safari/537.36"
  ]

  const HeaderNames: set<string> := {"User-Agent", "Accept-Language", "Cookie", "Accept", "Connection"}

  /** Python truthiness of `ua: str = None`: neither `None` nor the empty string. */
  predicate Truthy(ua: Option<string>) {
    ua.Some? && ua.value != ""
  }

  /** The header map; the caller's agent wins when truthy, otherwise one of
      the three built-in agents is used. */
  function BuildCommonHeaders(ua: Option<string>, pick: nat): (h: map<string, string>)
    requires pick < |UserAgents|
    ensures h.Keys == HeaderNames
    ensures Truthy(ua) ==> h["User-Agent"] == ua.value
    ensures !Truthy(ua) ==> h["User-Agent"] in UserAgents
    ensures h["Accept-Language"] == "ko-KR,ko;q=0.9,en;q=0.8"
    ensures h["Cookie"] == "CONSENT=YES+cb"
    ensures h["Accept"] == "*/*"
    ensures h["Connection"] == "close"
  {
    map[
      "User-Agent" := if Truthy(ua) then ua.value else UserAgents[pick],
      "Accept-Language" := "ko-KR,ko;q=0.9,en;q=0.8",
      "Cookie" := "CONSENT=YES+cb",
      "Accept" := "*/*",
      "Connection" := "close"
    ]
  }

  /** Any two header sets differ at most in their User-Agent. */
  lemma OnlyUserAgentVaries(ua1: Option<string>, pick1: nat, ua2: Option<string>, pick2: nat)
    requires pick1 < |UserAgents| && pick2 < |UserAgents|
    ensures BuildCommonHeaders(ua1, pick1) - {"User-Agent"} == BuildCommonHeaders(ua2, pick2) - {"User-Agent"}
  {
    var h1, h2 := BuildCommonHeaders(ua1, pick1) - {"User-Agent"}, BuildCommonHeaders(ua2, pick2) - {"User-Agent"};
    assert h1.Keys == h2.Keys;
    forall k | k in h1.Keys ensures h1[k] == h2[k] {
      assert k == "Accept-Language" || k == "Cookie" || k == "Accept" || k == "Connection";
    }
  }

  /** A truthy agent from the caller makes the result deterministic. */
  lemma CallerAgentIsDeterministic(ua: Option<string>, pick1: nat, pick2: nat)
    requires Truthy(ua) && pick1 < |UserAgents| && pick2 < |UserAgents|
    ensures BuildCommonHeaders(ua, pick1) == BuildCommonHeaders(ua, pick2)
  {
    OnlyUserAgentVaries(ua, pick1, ua, pick2);
    var h1, h2 := BuildCommonHeaders(ua, pick1), BuildCommonHeaders(ua, pick2);
    assert forall k | k in h1 :: h1[k] == h2[k];
  }

  /** An empty agent counts as none, just like `None`. */
  lemma EmptyAgentIsNoAgent(pick: nat)
    requires pick < |UserAgents|
    ensures BuildCommonHeaders(Some(""), pick) == BuildCommonHeaders(None, pick)
    ensures BuildCommonHeaders(None, pick)["User-Agent"] == UserAgents[pick]
  {
  }
}
