/**
  * The fail2ban request matcher for Caddy: the per-request verdict Match and
  * the Caddyfile directive parser UnmarshalCaddyfile.
  *
  * The banlist is the set of banned addresses visible to the request (one
  * snapshot of the registry); how it is loaded and refreshed is not modelled.
  */
module Fail2Ban {
  import opened Wrappers
  import opened Text
  import opened NetAddr
  import opened HttpHeader

  /** The one peer address whose forwarding headers are honoured. */
  const TrustedProxy: string := "10.10.4.99"
  const ForwardedForName: string := "X-Forwarded-For"
  const RealIPName: string := "X-Real-IP"
  /** Its mere presence forces a deny verdict. */
  const BanMarkerName: string := "X-Caddy-Ban"

  /** The parts of an HTTP request the matcher reads. */
  datatype Request = Request(remoteAddr: string, header: Header)

  // ---------------------------------------------------------------------
  // Client address resolution
  // ---------------------------------------------------------------------

  /** The address the matcher treats as the client. From the trusted proxy,
      the first comma-separated entry of X-Forwarded-For wins, then
      X-Real-IP, then the peer itself; from any other peer, the peer. */
  function ResolveClientIP(remoteIP: string, h: Header): (clientIP: string)
    ensures remoteIP != TrustedProxy ==> clientIP == remoteIP
    ensures clientIP == remoteIP || Trimmed(clientIP)
    ensures clientIP != remoteIP ==>
              clientIP == TrimSpace(FirstToken(Get(h, ForwardedForName), ','))
              || clientIP == TrimSpace(Get(h, RealIPName))
  {
    if remoteIP == TrustedProxy then
      var xff := Get(h, ForwardedForName);
      if xff != "" then TrimSpace(FirstToken(xff, ','))
      else
        var xrip := Get(h, RealIPName);
        if xrip != "" then TrimSpace(xrip)
        else remoteIP
    else remoteIP
  }

  /** The verdict for one request: true means deny. A peer address that
      cannot be split into host and port is denied, a request carrying the
      X-Caddy-Ban header is denied, and otherwise the resolved client address
      is denied exactly when it is banned. */
  function Match(req: Request, banned: set<string>): (deny: bool)
    ensures SplitHostPort(req.remoteAddr).Failure? ==> deny
    ensures BanMarkerName in req.header ==> deny
  {
    match SplitHostPort(req.remoteAddr)
    case Failure(_) => true
    case Success(hp) =>
      var clientIP := ResolveClientIP(hp.host, req.header);
      if BanMarkerName in req.header then true
      else clientIP in banned
  }

  /** Headers sent by an untrusted peer cannot change the resolved address. */
  lemma UntrustedPeerCannotSpoof(remoteIP: string, h1: Header, h2: Header)
    requires remoteIP != TrustedProxy
    ensures ResolveClientIP(remoteIP, h1) == remoteIP == ResolveClientIP(remoteIP, h2)
  {
  }

  /** From the trusted proxy, a non-empty X-Forwarded-For decides: its text
      before the first comma, trimmed. X-Real-IP is not consulted, even when
      that text is empty. */
  lemma ForwardedForWins(h: Header)
    requires Get(h, ForwardedForName) != ""
    ensures ResolveClientIP(TrustedProxy, h) == TrimSpace(FirstToken(Get(h, ForwardedForName), ','))
    ensures forall h2: Header :: Get(h2, ForwardedForName) == Get(h, ForwardedForName) ==>
              ResolveClientIP(TrustedProxy, h2) == ResolveClientIP(TrustedProxy, h)
  {
  }

  /** From the trusted proxy, without X-Forwarded-For, a non-empty X-Real-IP
      decides, trimmed. */
  lemma RealIPSecond(h: Header)
    requires Get(h, ForwardedForName) == "" && Get(h, RealIPName) != ""
    ensures ResolveClientIP(TrustedProxy, h) == TrimSpace(Get(h, RealIPName))
  {
  }

  /** From the trusted proxy, with neither header set, the peer is the client. */
  lemma PeerLast(h: Header)
    requires Get(h, ForwardedForName) == "" && Get(h, RealIPName) == ""
    ensures ResolveClientIP(TrustedProxy, h) == TrustedProxy
  {
  }

  /** From the trusted proxy, the forwarded list "1.2.3.4, 5.6.6.7"
      resolves to "1.2.3.4". */
  lemma ForwardedForExample()
    ensures ResolveClientIP(TrustedProxy, map["X-Forwarded-For" := ["1.2.3.4, 5.6.6.7"]]) == "1.2.3.4"
  {
    var h: Header := map["X-Forwarded-For" := ["1.2.3.4, 5.6.6.7"]];
    ForwardedForHeaderName();
    var first := "1.2.3.4";
    assert Get(h, ForwardedForName) == first + "," + " 5.6.6.7";
    assert Trimmed(first) by {
      assert first[0] == '1' && first[|first| - 1] == '4';
    }
    assert ',' !in first by {
      forall i | 0 <= i < |first| ensures first[i] != ',' {
        assert first[i] in "1.234";
      }
    }
    FirstEntryTrimmed(first, " 5.6.6.7");
  }

  /** A forwarded list whose first entry is blank resolves to "", and
      X-Real-IP is still not consulted. */
  lemma BlankForwardedForExample()
    ensures ResolveClientIP(TrustedProxy, map["X-Forwarded-For" := [" , 1.2.3.4"], "X-Real-Ip" := ["5.6.7.8"]]) == ""
  {
    var h: Header := map["X-Forwarded-For" := [" , 1.2.3.4"], "X-Real-Ip" := ["5.6.7.8"]];
    ForwardedForHeaderName();
    assert Get(h, ForwardedForName) == " " + "," + " 1.2.3.4";
    BlankFirstEntry(" ", " 1.2.3.4");
  }

  /** A first entry made only of white space trims to "". */
  lemma BlankFirstEntry(pad: string, rest: string)
    requires AllSpace(pad)
    ensures TrimSpace(FirstToken(pad + "," + rest, ',')) == ""
  {
    SplitOfPlainThenSep(pad, rest, ',');
    assert pad == pad + [] + [];
    TrimSpaceOfPadded(pad, [], []);
  }

  /** The first entry of `first + "," + rest`, trimmed, is `first` when that
      is already trimmed and comma-free. */
  lemma FirstEntryTrimmed(first: string, rest: string)
    requires ',' !in first && Trimmed(first)
    ensures TrimSpace(FirstToken(first + "," + rest, ',')) == first
  {
    SplitOfPlainThenSep(first, rest, ',');
    assert first == [] + first + [];
    TrimSpaceOfPadded([], first, []);
  }

  /** The deny verdict ignores the banlist when the peer address is malformed
      (fail closed). */
  lemma MalformedPeerDenied(req: Request, banned: set<string>)
    requires SplitHostPort(req.remoteAddr).Failure?
    ensures Match(req, banned)
  {
  }

  /** A peer address without a port, such as the bare proxy address, is
      malformed and denied. */
  lemma PortlessPeerDenied(h: Header, banned: set<string>)
    ensures Match(Request(TrustedProxy, h), banned)
    ensures Match(Request("", h), banned)
  {
  }

  /** The X-Caddy-Ban header denies with any value, even with no banned
      address at all. */
  lemma BanMarkerDenies(addr: string, h: Header)
    requires BanMarkerName in h
    ensures Match(Request(addr, h), {})
    ensures Match(Request(addr, h[BanMarkerName := []]), {})
  {
  }

  /** Without the marker, a well-formed request is denied exactly when its
      resolved client address is banned. */
  lemma MatchIsBanlistLookup(req: Request, banned: set<string>)
    requires SplitHostPort(req.remoteAddr).Success? && BanMarkerName !in req.header
    ensures Match(req, banned) <==> ResolveClientIP(SplitHostPort(req.remoteAddr).value.host, req.header) in banned
  {
  }

  /** With an empty banlist only the two overrides deny. */
  lemma EmptyBanlist(req: Request)
    ensures Match(req, {}) <==> SplitHostPort(req.remoteAddr).Failure? || BanMarkerName in req.header
  {
  }

  /** Banning more addresses never lets a denied request through. */
  lemma MatchMonotone(req: Request, b1: set<string>, b2: set<string>)
    requires b1 <= b2 && Match(req, b1)
    ensures Match(req, b2)
  {
  }

  /** For an untrusted peer the verdict depends on the headers only through
      the presence of X-Caddy-Ban: forwarding headers cannot unban or ban. */
  lemma UntrustedVerdictIgnoresForwarding(addr: string, h1: Header, h2: Header, banned: set<string>)
    requires SplitHostPort(addr).Success? && SplitHostPort(addr).value.host != TrustedProxy
    requires (BanMarkerName in h1) == (BanMarkerName in h2)
    ensures Match(Request(addr, h1), banned) == Match(Request(addr, h2), banned)
    ensures BanMarkerName !in h1 ==> (Match(Request(addr, h1), banned) <==> SplitHostPort(addr).value.host in banned)
  {
  }

  /** Behind the trusted proxy on any port, a request whose X-Forwarded-For
      value starts with a banned address is denied. The address may carry
      white space around it and may be the whole value or be followed by a
      comma and further entries. */
  lemma ForwardedBannedAddressDenied(port: string, h: Header, a: string, client: string, b: string, tail: string, banned: set<string>)
    requires NoBrackets(port) && ':' !in port
    requires client in banned && ',' !in client && Trimmed(client)
    requires AllSpace(a) && AllSpace(b) && (tail == [] || tail[0] == ',')
    requires CanonicalKey(ForwardedForName) in h && h[CanonicalKey(ForwardedForName)] != []
    requires h[CanonicalKey(ForwardedForName)][0] == a + client + b + tail != ""
    ensures Match(Request(JoinHostPort(TrustedProxy, port), h), banned)
  {
    assert ':' !in TrustedProxy;
    assert NoBrackets(TrustedProxy);
    SplitJoinHostPort(TrustedProxy, port);
    assert Get(h, ForwardedForName) == a + client + b + tail;
    PaddedFirstEntryTrimmed(a, client, b, tail);
  }

  /** The X-Forwarded-For rule extracts `client` from `a + client + b + tail`
      when `a` and `b` are white space and `tail` is empty or starts the next
      entry. */
  lemma PaddedFirstEntryTrimmed(a: string, client: string, b: string, tail: string)
    requires ',' !in client && Trimmed(client)
    requires AllSpace(a) && AllSpace(b) && (tail == [] || tail[0] == ',')
    ensures TrimSpace(FirstToken(a + client + b + tail, ',')) == client
  {
    var entry := a + client + b;
    assert ',' !in entry by {
      assert ',' !in a && ',' !in b;
    }
    if tail == [] {
      assert entry + tail == entry;
      SplitOfPlain(entry, ',');
    } else {
      assert entry + tail == entry + [','] + tail[1..];
      SplitOfPlainThenSep(entry, tail[1..], ',');
    }
    TrimSpaceOfPadded(a, client, b);
  }

  // ---------------------------------------------------------------------
  // Caddyfile configuration
  // ---------------------------------------------------------------------

  const Keyword: string := "fail2ban"

  datatype ConfigError =
    | MissingFilePath
    | UnknownConfigValue(value: string)
  {
    function Message(): string {
      match this
      case MissingFilePath => "fail2ban expects file path, value is missing"
      case UnknownConfigValue(v) => "unknown config value: " + v
    }
  }

  /** What parsing leaves behind: the Banfile field, and the error if any.
      The field keeps the paths assigned before an error. */
  datatype ParseOutcome = ParseOutcome(banfile: string, err: Option<ConfigError>)

  /** The directive's meaning: each "fail2ban <path>" pair assigns the path,
      a missing path or any other keyword stops with an error. */
  function ParseCaddyfile(tokens: seq<string>, banfile: string): ParseOutcome
    decreases |tokens|
  {
    if tokens == [] then ParseOutcome(banfile, None)
    else if tokens[0] == Keyword then
      if |tokens| == 1 then ParseOutcome(banfile, Some(MissingFilePath))
      else ParseCaddyfile(tokens[2..], tokens[1])
    else ParseOutcome(banfile, Some(UnknownConfigValue(tokens[0])))
  }

  /** A token list that parses: "fail2ban <path>" pairs and nothing else. */
  predicate WellFormedConfig(tokens: seq<string>) {
    |tokens| % 2 == 0 && forall i :: 0 <= i < |tokens| && i % 2 == 0 ==> tokens[i] == Keyword
  }

  /** Parsing succeeds exactly on lists of "fail2ban <path>" pairs. */
  lemma {:induction false} ParseSucceedsIff(tokens: seq<string>, banfile: string)
    ensures ParseCaddyfile(tokens, banfile).err.None? <==> WellFormedConfig(tokens)
    decreases |tokens|
  {
    if |tokens| >= 2 && tokens[0] == Keyword {
      var rest := tokens[2..];
      ParseSucceedsIff(rest, tokens[1]);
      if WellFormedConfig(rest) {
        forall i | 0 <= i < |tokens| && i % 2 == 0 ensures tokens[i] == Keyword {
          if i >= 2 { assert tokens[i] == rest[i - 2]; }
        }
      }
      if WellFormedConfig(tokens) {
        forall i | 0 <= i < |rest| && i % 2 == 0 ensures rest[i] == Keyword {
          assert rest[i] == tokens[i + 2];
        }
      }
    } else if |tokens| == 1 {
      assert !WellFormedConfig(tokens);
    } else if tokens != [] {
      assert tokens[0] != Keyword;
    }
  }

  /** A successful parse leaves the path of the last pair (a later pair
      overwrites an earlier one), or the old value when there was none. */
  lemma {:induction false} ParseLastPathWins(tokens: seq<string>, banfile: string)
    requires WellFormedConfig(tokens)
    ensures ParseCaddyfile(tokens, banfile).banfile == if tokens == [] then banfile else tokens[|tokens| - 1]
    decreases |tokens|
  {
    if tokens != [] {
      assert |tokens| >= 2 && tokens[0] == Keyword;
      var rest := tokens[2..];
      forall i | 0 <= i < |rest| && i % 2 == 0 ensures rest[i] == Keyword {
        assert rest[i] == tokens[i + 2];
      }
      ParseLastPathWins(rest, tokens[1]);
    }
  }

  /** After well-formed pairs, a trailing "fail2ban" is an error, and any
      other keyword stops the parse with that keyword in the error; either way
      the field keeps what the pairs before assigned. */
  lemma {:induction false} ParseStopsAtBadKeyword(pairs: seq<string>, v: string, rest: seq<string>, banfile: string)
    requires WellFormedConfig(pairs)
    requires v == Keyword ==> rest == []
    ensures ParseCaddyfile(pairs + [v] + rest, banfile)
            == ParseOutcome(ParseCaddyfile(pairs, banfile).banfile,
                            Some(if v == Keyword then MissingFilePath else UnknownConfigValue(v)))
    decreases |pairs|
  {
    if pairs == [] {
      assert pairs + [v] + rest == [v] + rest;
    } else {
      assert |pairs| >= 2 && pairs[0] == Keyword;
      var tail := pairs[2..];
      forall i | 0 <= i < |tail| && i % 2 == 0 ensures tail[i] == Keyword {
        assert tail[i] == pairs[i + 2];
      }
      assert (pairs + [v] + rest)[2..] == tail + [v] + rest;
      ParseStopsAtBadKeyword(tail, v, rest, pairs[1]);
    }
  }

  /** The matcher's configuration as Caddy holds it. */
  class Fail2Ban {
    var banfile: string

    /** The zero value Caddy creates before unmarshalling. */
    constructor ()
      ensures banfile == ""
    {
      banfile := "";
    }

    /** Reads the directive's tokens with a cursor, assigning each path that
        follows "fail2ban" to the field and returning at the first error. */
    method UnmarshalCaddyfile(tokens: seq<string>) returns (err: Option<ConfigError>)
      modifies this
      ensures ParseOutcome(banfile, err) == ParseCaddyfile(tokens, old(banfile))
    {
      var cursor := 0;
      while cursor < |tokens|
        invariant 0 <= cursor <= |tokens|
        invariant ParseCaddyfile(tokens[cursor..], banfile) == ParseCaddyfile(tokens, old(banfile))
        decreases |tokens| - cursor
      {
        var v := tokens[cursor];
        cursor := cursor + 1;
        if v == Keyword {
          if cursor == |tokens| {
            return Some(MissingFilePath);
          }
          assert tokens[cursor - 1..][2..] == tokens[cursor + 1..];
          banfile := tokens[cursor];
          cursor := cursor + 1;
        } else {
          return Some(UnknownConfigValue(v));
        }
      }
      return None;
    }
  }
}
