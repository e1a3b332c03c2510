/**
  * Go's net.SplitHostPort, which the matcher uses to take the peer address
  * apart, and net.JoinHostPort, its inverse. The error cases are Go's, in
  * Go's order.
  */
module NetAddr {
  import opened Wrappers
  import opened Text

  datatype AddrError =
    | MissingPort             // "missing port in address"
    | TooManyColons           // "too many colons in address"
    | MissingCloseBracket     // "missing ']' in address"
    | UnexpectedOpenBracket   // "unexpected '[' in address"
    | UnexpectedCloseBracket  // "unexpected ']' in address"

  datatype HostPort = HostPort(host: string, port: string)

  predicate NoBrackets(s: string) {
    '[' !in s && ']' !in s
  }

  /** Splits "host:port", "[host]:port" or "[host%zone]:port" into host and
      port. The port is everything after the last colon; a successful split
      leaves no colon in the port and no bracket in either part. */
  function SplitHostPort(hostport: string): (r: Result<HostPort, AddrError>)
    ensures ':' !in hostport ==> r == Failure(MissingPort)
    ensures r.Success? ==>
              var n := |hostport| - |r.value.port|;
              1 <= n && hostport[n - 1] == ':' && hostport[n..] == r.value.port
              && ':' !in r.value.port
              && NoBrackets(r.value.host) && NoBrackets(r.value.port)
  {
    match LastIndexOf(hostport, ':')
    case None => Failure(MissingPort)
    case Some(i) =>
      if hostport[0] == '[' then
        match IndexOf(hostport, ']')
        case None => Failure(MissingCloseBracket)
        case Some(end) =>
          if end + 1 == |hostport| then Failure(MissingPort)
          else if end + 1 != i then
            (if hostport[end + 1] == ':' then Failure(TooManyColons) else Failure(MissingPort))
          else
            assert ']' !in hostport[1..end];
            CheckBrackets(hostport, hostport[1..end], 1, end + 1, i)
      else
        var host := hostport[..i];
        if ':' in host then Failure(TooManyColons)
        else CheckBrackets(hostport, host, 0, 0, i)
  }

  /** The final checks of SplitHostPort: no '[' from position `j` on and no
      ']' from position `k` on, then the port follows the colon at `i`. */
  function CheckBrackets(hostport: string, host: string, j: nat, k: nat, i: nat): (r: Result<HostPort, AddrError>)
    requires j <= 1 && k <= i < |hostport| && hostport[i] == ':' && ':' !in hostport[i + 1..]
    requires (j == 0 ==> k == 0 && host == hostport[..i]) && (j == 1 ==> 2 <= k && ']' !in host && host == hostport[1..k - 1])
    ensures r.Success? ==>
              r.value.port == hostport[i + 1..] && ':' !in r.value.port
              && r.value.host == host && NoBrackets(r.value.host) && NoBrackets(r.value.port)
  {
    if '[' in hostport[j..] then Failure(UnexpectedOpenBracket)
    else if ']' in hostport[k..] then Failure(UnexpectedCloseBracket)
    else
      SliceNotIn(hostport, '[', j, i + 1);
      SliceNotIn(hostport, ']', k, i + 1);
      HostWithinChecked(hostport, host, j, k, i);
      Success(HostPort(host, hostport[i + 1..]))
  }

  lemma HostWithinChecked(hostport: string, host: string, j: nat, k: nat, i: nat)
    requires j <= 1 && k <= i < |hostport|
    requires (j == 0 ==> k == 0 && host == hostport[..i]) && (j == 1 ==> 2 <= k && ']' !in host && host == hostport[1..k - 1])
    requires '[' !in hostport[j..] && ']' !in hostport[k..]
    ensures NoBrackets(host)
  {
    if j == 0 {
      assert host == hostport[j..][..i];
      assert hostport[k..] == hostport;
    } else {
      assert host == hostport[j..][..k - 2];
    }
  }

  lemma SliceNotIn(s: string, c: char, a: nat, b: nat)
    requires a <= b <= |s| && c !in s[a..]
    ensures c !in s[b..]
  {
  }

  /** Go's net.JoinHostPort: brackets the host when it holds a colon. */
  function JoinHostPort(host: string, port: string): string {
    if ':' in host then "[" + host + "]:" + port else host + ":" + port
  }

  /** Splitting a joined address gives back its host and port, for any host
      and port that carry no brackets and a port without a colon. */
  lemma SplitJoinHostPort(host: string, port: string)
    requires NoBrackets(host) && NoBrackets(port) && ':' !in port
    ensures SplitHostPort(JoinHostPort(host, port)) == Success(HostPort(host, port))
  {
    if ':' in host {
      SplitJoinBracketed(host, port);
    } else {
      SplitJoinPlain(host, port);
    }
  }

  lemma SplitJoinBracketed(host: string, port: string)
    requires NoBrackets(host) && NoBrackets(port) && ':' !in port && ':' in host
    ensures SplitHostPort("[" + host + "]:" + port) == Success(HostPort(host, port))
  {
    var hp := "[" + host + "]:" + port;
    var end := |host| + 1;
    BracketedShape(host, port);
    LastIndexOfIs(hp, ':', end + 1);
    IndexOfIs(hp, ']', end);
    SplitBracketed(hp, end);
  }

  lemma BracketedShape(host: string, port: string)
    requires NoBrackets(host) && NoBrackets(port) && ':' !in port
    ensures var hp := "[" + host + "]:" + port; var end := |host| + 1;
      end + 1 < |hp| && hp[0] == '[' && hp[end] == ']' && hp[end + 1] == ':'
      && hp[1..end] == host && hp[end + 2..] == port
      && ']' !in hp[..end] && ':' !in hp[end + 2..]
      && '[' !in hp[1..] && ']' !in hp[end + 1..]
  {
    var hp := "[" + host + "]:" + port;
    var end := |host| + 1;
    assert hp[1..] == host + "]:" + port;
    assert hp[..end] == "[" + host;
    assert hp[end + 1..] == ":" + port;
  }

  /** The bracketed branch of SplitHostPort when the first ']' is followed by
      the last ':' and no stray bracket remains. */
  lemma SplitBracketed(hp: string, end: nat)
    requires end + 1 < |hp| && hp[0] == '['
    requires IndexOf(hp, ']') == Some(end) && LastIndexOf(hp, ':') == Some(end + 1)
    requires '[' !in hp[1..] && ']' !in hp[end + 1..]
    ensures SplitHostPort(hp) == Success(HostPort(hp[1..end], hp[end + 2..]))
  {
  }

  lemma SplitJoinPlain(host: string, port: string)
    requires NoBrackets(host) && NoBrackets(port) && ':' !in port && ':' !in host
    ensures SplitHostPort(host + ":" + port) == Success(HostPort(host, port))
  {
    var hp := host + ":" + port;
    var i := |host|;
    assert hp[i + 1..] == port;
    LastIndexOfIs(hp, ':', i);
    assert hp[..i] == host;
    assert hp[0..] == hp;
    assert hp[0] != '[' by {
      if host != [] { assert hp[0] == host[0]; }
    }
  }

  /** A successful split joins back to the original address, unless the
      address bracketed a host without colons (which JoinHostPort would not
      bracket). */
  lemma JoinSplitHostPort(hostport: string)
    requires SplitHostPort(hostport).Success?
    requires hostport[0] != '[' || ':' in SplitHostPort(hostport).value.host
    ensures JoinHostPort(SplitHostPort(hostport).value.host, SplitHostPort(hostport).value.port) == hostport
  {
    var hp := SplitHostPort(hostport).value;
    var i := LastIndexOf(hostport, ':').value;
    if hostport[0] == '[' {
      var end := IndexOf(hostport, ']').value;
      assert hostport == "[" + hostport[1..end] + "]:" + hostport[i + 1..];
    } else {
      assert hostport == hostport[..i] + ":" + hostport[i + 1..];
    }
  }
}
