/**
 * The browser tests on the user-agent header of a request, None standing
 * for a request without the header.
 */
module UserAgents {
  import opened Wrappers
  import opened JavaStrings

  /** A Lynx browser: the header contains "lynx" in any case. */
  predicate IsLynxAgent(agent: Option<string>)
  {
    agent.Some? && Contains(ToLower(agent.value), "lynx")
  }

  /** A BlackBerry browser: the header starts with "BlackBerry", case included. */
  predicate IsBlackBerryAgent(agent: Option<string>)
  {
    agent.Some? && StartsWith(agent.value, "BlackBerry")
  }

  /** A Linux browser: no header at all, or one that contains "linux" in any case. */
  predicate IsLinuxAgent(agent: Option<string>)
  {
    agent.None? || Contains(ToLower(agent.value), "linux")
  }

  /** Lynx is detected exactly when four consecutive characters spell "lynx" in some case. */
  lemma LynxAnyCase(agent: string)
    ensures IsLynxAgent(Some(agent)) <==> exists i :: LowersTo(agent, i, "lynx")
  {
    ContainsLowered(agent, "lynx");
  }

  /** Linux is detected exactly when five consecutive characters spell "linux" in some case. */
  lemma LinuxAnyCase(agent: string)
    ensures IsLinuxAgent(Some(agent)) <==> exists i :: LowersTo(agent, i, "linux")
  {
    ContainsLowered(agent, "linux");
  }

  /** Without the header a request counts as Linux, but neither as Lynx nor as BlackBerry. */
  lemma MissingAgent()
    ensures IsLinuxAgent(None) && !IsLynxAgent(None) && !IsBlackBerryAgent(None)
  {
  }

  /** The BlackBerry test does not ignore case, unlike the other two. */
  lemma BlackBerryCaseSensitive()
    ensures IsLynxAgent(Some("LYNX")) && !IsBlackBerryAgent(Some("blackberry"))
  {
    var s := "LYNX";
    assert s[0..4] == s;
    assert ToLower(s) == "lynx";
    assert LowersTo(s, 0, "lynx");
    LynxAnyCase(s);
    assert "blackberry"[0] != "BlackBerry"[0];
  }
}
