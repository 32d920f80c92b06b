/** The access requirements the connector enforces. */
module AccessConfig {
  import opened PhpStrings

  /** `array_values(array_filter(array_map('trim', $ips)))`: trimmed, without the falsy "" and "0", reindexed. */
  function CleanIpList(ips: seq<string>): (r: seq<string>)
    ensures |r| <= |ips|
    ensures forall i :: 0 <= i < |r| ==> !PhpEmpty(r[i])
  {
    if ips == [] then []
    else
      var t := TrimSpace(ips[0]);
      (if PhpEmpty(t) then [] else [t]) + CleanIpList(ips[1..])
  }

  /** Trimming changes none of `xs`. */
  predicate AllTrimmed(xs: seq<string>) {
    forall i :: 0 <= i < |xs| ==> TrimSpace(xs[i]) == xs[i]
  }

  lemma AllTrimmedConcat(xs: seq<string>, ys: seq<string>)
    requires AllTrimmed(xs) && AllTrimmed(ys)
    ensures AllTrimmed(xs + ys)
  {
    forall i | 0 <= i < |xs + ys|
      ensures TrimSpace((xs + ys)[i]) == (xs + ys)[i]
    {
      if i >= |xs| {
        assert (xs + ys)[i] == ys[i - |xs|];
      }
    }
  }

  /** Every kept address is already trimmed. */
  lemma {:induction false} CleanIpListTrimmed(ips: seq<string>)
    ensures AllTrimmed(CleanIpList(ips))
  {
    if ips != [] {
      var t := TrimSpace(ips[0]);
      var head: seq<string> := if PhpEmpty(t) then [] else [t];
      assert AllTrimmed(head) by {
        TrimIdempotent(ips[0], Whitespace);
      }
      CleanIpListTrimmed(ips[1..]);
      AllTrimmedConcat(head, CleanIpList(ips[1..]));
    }
  }

  /** Some entry of `xs` is mapped to `y` by `f`. */
  predicate SomeMapsTo(xs: seq<string>, f: string -> string, y: string) {
    exists i :: 0 <= i < |xs| && f(xs[i]) == y
  }

  lemma SomeMapsToCons(xs: seq<string>, f: string -> string, y: string)
    requires xs != []
    ensures SomeMapsTo(xs, f, y) <==> f(xs[0]) == y || SomeMapsTo(xs[1..], f, y)
  {
    if SomeMapsTo(xs, f, y) && f(xs[0]) != y {
      var i :| 0 <= i < |xs| && f(xs[i]) == y;
      assert f(xs[1..][i - 1]) == y;
    }
    if SomeMapsTo(xs[1..], f, y) {
      var i :| 0 <= i < |xs[1..]| && f(xs[1..][i]) == y;
      assert f(xs[i + 1]) == y;
    }
  }

  /** An address is kept exactly when some entry trims to it and it is not falsy. */
  lemma {:induction false} CleanIpListMembers(ips: seq<string>, ip: string)
    ensures ip in CleanIpList(ips) <==> !PhpEmpty(ip) && SomeMapsTo(ips, TrimSpace, ip)
  {
    if ips != [] {
      var t := TrimSpace(ips[0]);
      CleanIpListMembers(ips[1..], ip);
      SomeMapsToCons(ips, TrimSpace, ip);
      assert CleanIpList(ips) == (if PhpEmpty(t) then [] else [t]) + CleanIpList(ips[1..]);
    }
  }

  /** Cleaning a clean list changes nothing. */
  lemma {:induction false} CleanIpListIdempotent(ips: seq<string>)
    ensures CleanIpList(CleanIpList(ips)) == CleanIpList(ips)
  {
    CleanIpListTrimmed(ips);
    CleanIsFixpoint(CleanIpList(ips));
  }

  lemma {:induction false} CleanIsFixpoint(ips: seq<string>)
    requires forall i :: 0 <= i < |ips| ==> !PhpEmpty(ips[i]) && TrimSpace(ips[i]) == ips[i]
    ensures CleanIpList(ips) == ips
  {
    if ips != [] {
      CleanIsFixpoint(ips[1..]);
      assert ips == [ips[0]] + ips[1..];
    }
  }

  class Config {
    var sessionName: string
    var sessionValue: string
    var allowedIp: seq<string>
    var basicAuthUser: string
    var basicAuthPassword: string

    /** No requirement: empty session, credentials and address list. */
    constructor ()
      ensures sessionName == "" && sessionValue == "" && allowedIp == []
      ensures basicAuthUser == "" && basicAuthPassword == ""
    {
      sessionName := "";
      sessionValue := "";
      allowedIp := [];
      basicAuthUser := "";
      basicAuthPassword := "";
    }

    /** `requireSession`: the session variable and the value it must hold. */
    method RequireSession(name: string, value: string)
      modifies this
      ensures sessionName == name && sessionValue == value
      ensures allowedIp == old(allowedIp)
      ensures basicAuthUser == old(basicAuthUser) && basicAuthPassword == old(basicAuthPassword)
    {
      sessionName := name;
      sessionValue := value;
    }

    /** `setAllowedIp`: the cleaned list of addresses requests may come from. */
    method SetAllowedIp(ips: seq<string>)
      modifies this
      ensures allowedIp == CleanIpList(ips)
      ensures sessionName == old(sessionName) && sessionValue == old(sessionValue)
      ensures basicAuthUser == old(basicAuthUser) && basicAuthPassword == old(basicAuthPassword)
    {
      allowedIp := CleanIpList(ips);
    }

    /** `requireBasicAuth`: the credentials of HTTP basic authentication. */
    method RequireBasicAuth(user: string, password: string)
      modifies this
      ensures basicAuthUser == user && basicAuthPassword == password
      ensures sessionName == old(sessionName) && sessionValue == old(sessionValue)
      ensures allowedIp == old(allowedIp)
    {
      basicAuthUser := user;
      basicAuthPassword := password;
    }
  }
}
