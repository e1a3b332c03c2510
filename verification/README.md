# caddy-fail2ban matcher, modelled in Dafny

`caddy-fail2ban` is a request matcher for the Caddy web server. For every
request it decides whether the client is banned; Caddy then rejects the
requests it matches. This project models the matcher's two operations from
`fail2ban.go`:

* **`Match`**: the verdict for one request (true means deny). The peer
  address (`RemoteAddr`) is split into host and port, and a peer that cannot
  be split is denied ("fail closed"). The client address is then resolved.
  Only the trusted proxy `10.10.4.99` may name the client. From that proxy,
  the first comma-separated entry of `X-Forwarded-For` is used, trimmed. If
  that header is empty, `X-Real-IP` is used, trimmed. If both are empty, the
  peer host is used. From any other peer, the peer host is used. A request
  that carries an `X-Caddy-Ban` header is denied, whatever the header's value.
  Otherwise the request is denied exactly when the resolved address is in the
  banlist.
* **`UnmarshalCaddyfile`**: reads the Caddyfile directive's tokens. Each
  `fail2ban <path>` pair stores the path in the `Banfile` field. A missing
  path is an error, and so is any other keyword.

Files:

* `wrappers.dfy`: `Option` and `Result`.
* `text.dfy` (module `Text`): Go's `strings.Split`, `strings.TrimSpace` and
  byte search, with their characterising contracts and round trips.
* `netaddr.dfy` (module `NetAddr`): Go's `net.SplitHostPort` with all its
  error cases, and `net.JoinHostPort` as its inverse.
* `header.dfy` (module `HttpHeader`): `http.Header` as a map from names to
  value lists, `CanonicalMIMEHeaderKey` and `Header.Get`.
* `fail2ban.dfy` (module `Fail2Ban`): client resolution, `Match`, the
  Caddyfile parser as a specification function `ParseCaddyfile`, and the
  class `Fail2Ban` with its `banfile` field and the cursor loop
  `UnmarshalCaddyfile`.

Modelling choices:

* **Banlist.** The banlist is a parameter `banned: set<string>`. It stands
  for the snapshot that `IsBanned` consults, and membership is exact string
  equality.
* **Go library calls.** `net.SplitHostPort`, `strings.Split`,
  `strings.TrimSpace`, `CanonicalMIMEHeaderKey` and `Header.Get` are Go
  standard library code, so they are not part of the repository's source.
  They are modelled after the behaviour of Go's standard library.
* **Header map.** The header map holds whatever keys the request carries.
  `Get` canonicalises the name it is asked for, so `Get(h, "X-Real-IP")`
  reads the key `X-Real-Ip`. The `X-Caddy-Ban` test in `fail2ban.go:74`
  indexes the map directly. The name is already canonical
  (`HttpHeader.BanMarkerHeaderName`), so for a map with canonical keys, as
  Go's server builds them, the direct index finds what `Get` would find.
* **Strings.** A string is a sequence of characters, while Go strings are
  bytes. The two agree on the ASCII delimiters involved (`:`, `[`, `]`,
  `,`). `TrimSpace` uses Go's `unicode.IsSpace` set, one code point at a
  time.

Two behaviours of the code worth knowing:

* `X-Real-IP` is used only when it is non-empty, not whenever it is
  present.
* A non-empty `X-Forwarded-For` whose first entry is blank (`" , 1.2.3.4"`)
  resolves to the empty address. `X-Real-IP` is not consulted in that case
  (`Fail2Ban.BlankForwardedForExample`).

## Model

| member | source | states |
|---|---|---|
| `Text.IndexOf` | fail2ban.go:45 | The first position of a character, or None exactly when it is absent; nothing before that position is the character. |
| `Text.LastIndexOf` | fail2ban.go:45 | The last position of a character, or None exactly when it is absent; nothing after it is the character. |
| `Text.TrimLeftSpace` | fail2ban.go:58-61 | The result is a suffix of the input, only white space precedes it, and it does not start with white space. |
| `Text.TrimRightSpace` | fail2ban.go:58-61 | The result is a prefix of the input, only white space follows it, and it does not end with white space. |
| `Text.TrimSpace` | fail2ban.go:58-61 | The result neither starts nor ends with white space. |
| `Text.TrimSpaceOfPadded` | fail2ban.go:58-61 | Trimming a trimmed string padded with any white space gives that string back. Every string splits this way, so this lemma determines TrimSpace on every input. |
| `Text.TrimSpaceIdempotent` | fail2ban.go:58-61 | Trimming twice equals trimming once. |
| `Text.Split` | fail2ban.go:58 | `strings.Split` with a one-character separator yields at least one piece, and no piece contains the separator. |
| `Text.JoinSplit` | fail2ban.go:58 | Joining the pieces of a split with the separator reproduces the input. |
| `Text.SplitJoin` | fail2ban.go:58 | Splitting a join of separator-free pieces gives the same pieces back. |
| `Text.FirstToken` | fail2ban.go:58 | `Split(s, ",")[0]` is the prefix of `s` before its first comma, or all of `s` when it has none. |
| `Text.FirstTokenByIndex` | fail2ban.go:58 | The first token ends exactly at the first separator position that IndexOf finds. |
| `NetAddr.SplitHostPort` | fail2ban.go:45 | An address without a colon fails with MissingPort. On success the port is everything after the last colon, the port has no colon, and neither part has a bracket. |
| `NetAddr.SplitJoinHostPort` | fail2ban.go:45 | Splitting `JoinHostPort(host, port)` returns exactly host and port, for bracket-free parts and a colon-free port, both for IPv4-style and for bracketed IPv6 hosts. |
| `NetAddr.JoinSplitHostPort` | fail2ban.go:45 | A successful split joins back to the original address, unless the address bracketed a colon-free host. |
| `HttpHeader.Canonicalize` | fail2ban.go:57-60 | Keeps the length; each letter is upper case at the start and after a '-', and lower case elsewhere. |
| `HttpHeader.CanonicalKey` | fail2ban.go:57-60 | A token name gets canonical letter case at every position. A name with a non-token character is unchanged. |
| `HttpHeader.CanonicalKeyIdempotent` | fail2ban.go:57-60 | Canonicalising a canonical name changes nothing. |
| `HttpHeader.CanonicalKeyIgnoresCase` | fail2ban.go:57-60 | Two token names that differ only in ASCII case have the same canonical name. |
| `HttpHeader.Get` | fail2ban.go:57-60 | When the canonical name holds at least one value, the result is the first of them. Otherwise the result is "". |
| `HttpHeader.RealIPHeaderName` | fail2ban.go:60 | `Get(h, "X-Real-IP")` looks up the key `X-Real-Ip`. |
| `HttpHeader.ForwardedForHeaderName` | fail2ban.go:57 | `X-Forwarded-For` is its own canonical form. |
| `HttpHeader.BanMarkerHeaderName` | fail2ban.go:74 | `X-Caddy-Ban` is its own canonical form, so the direct map index agrees with a canonical lookup. |
| `Fail2Ban.ResolveClientIP` | fail2ban.go:52-70 | An untrusted peer resolves to itself. A result other than the peer is trimmed, and it is either the trimmed first X-Forwarded-For entry or the trimmed X-Real-IP value. |
| `Fail2Ban.Match` | fail2ban.go:44-87 | A peer address that fails to split is denied. A request carrying `X-Caddy-Ban` is denied. |
| `Fail2Ban.UntrustedPeerCannotSpoof` | fail2ban.go:52-70 | For a peer other than 10.10.4.99, any two header maps resolve to the same address, the peer itself. |
| `Fail2Ban.ForwardedForWins` | fail2ban.go:57-58 | From the trusted proxy, a non-empty X-Forwarded-For resolves to its trimmed first entry. Headers with the same X-Forwarded-For resolve alike, whatever their X-Real-IP. |
| `Fail2Ban.RealIPSecond` | fail2ban.go:60-61 | From the trusted proxy, with X-Forwarded-For empty and X-Real-IP non-empty, the result is X-Real-IP trimmed. |
| `Fail2Ban.PeerLast` | fail2ban.go:63-64 | From the trusted proxy, with both headers empty, the result is the peer host. |
| `Fail2Ban.ForwardedForExample` | fail2ban.go:57-58 | `X-Forwarded-For: 1.2.3.4, 5.6.6.7` from the trusted proxy resolves to `1.2.3.4`. |
| `Fail2Ban.BlankForwardedForExample` | fail2ban.go:57-58 | `X-Forwarded-For: " , 1.2.3.4"` resolves to "", even with `X-Real-Ip` set. |
| `Fail2Ban.FirstEntryTrimmed` | fail2ban.go:58 | A trimmed, comma-free first entry is what the X-Forwarded-For rule extracts from `first,rest`. |
| `Fail2Ban.PaddedFirstEntryTrimmed` | fail2ban.go:58 | From `a + client + b + tail`, with white space `a` and `b` and a tail that is empty or starts with a comma, the X-Forwarded-For rule extracts exactly `client`. |
| `Fail2Ban.BlankFirstEntry` | fail2ban.go:58 | A first X-Forwarded-For entry made only of white space resolves to the empty string. |
| `Fail2Ban.MalformedPeerDenied` | fail2ban.go:45-50 | If the peer address cannot be split, Match is true for every header map and banlist. |
| `Fail2Ban.PortlessPeerDenied` | fail2ban.go:45-50 | A bare `10.10.4.99` (no port) and the empty address are denied. |
| `Fail2Ban.BanMarkerDenies` | fail2ban.go:73-78 | With an `X-Caddy-Ban` key, including one with no values, Match is true even with an empty banlist. |
| `Fail2Ban.MatchIsBanlistLookup` | fail2ban.go:80-86 | With a well-formed peer and no marker, Match holds exactly when the resolved client address is banned. |
| `Fail2Ban.EmptyBanlist` | fail2ban.go:44-87 | With an empty banlist, Match holds exactly when the peer is malformed or the marker is present. |
| `Fail2Ban.MatchMonotone` | fail2ban.go:80-86 | Enlarging the banlist never turns a deny into an allow. |
| `Fail2Ban.UntrustedVerdictIgnoresForwarding` | fail2ban.go:52-86 | For an untrusted peer the verdict depends on the headers only through the marker. Without the marker it is the peer host's banlist membership. |
| `Fail2Ban.ForwardedBannedAddressDenied` | fail2ban.go:56-83 | Behind the trusted proxy on any port, a request is denied when its X-Forwarded-For value starts with a banned address. The address may be padded with white space and may be the whole value or followed by a comma and more entries. |
| `Fail2Ban.ParseSucceedsIff` | fail2ban.go:91-103 | The directive parses without error exactly when its tokens are `fail2ban <path>` pairs. |
| `Fail2Ban.ParseLastPathWins` | fail2ban.go:93-97 | After a successful parse, Banfile is the path of the last pair, so later pairs overwrite earlier ones. With no tokens it keeps its old value. |
| `Fail2Ban.ParseStopsAtBadKeyword` | fail2ban.go:94-99 | After well-formed pairs, a trailing `fail2ban` gives the missing-path error and any other keyword gives the unknown-value error. Banfile keeps the paths assigned before the error. |
| `Fail2Ban.Fail2Ban.UnmarshalCaddyfile` | fail2ban.go:90-104 | The cursor loop leaves the Banfile field and returns the error exactly as ParseCaddyfile prescribes from the old field value. |
| `Fail2Ban.Fail2Ban.constructor` | fail2ban.go:21-26 | A new matcher's Banfile is the empty string. |

## Left out

- The `Banlist` type, `NewBanlist`, `Start` and the internals of `IsBanned`: these files are not part of this model. The banlist is an abstract set of addresses, and loading, refreshing and snapshot swapping are not modelled.
- `Provision` (fail2ban.go:37-42): it wires a logger and starts the background refresh, which is concurrency and I/O.
- Logging: every `zap` call is a side effect with no effect on the verdict. The call at fail2ban.go:76 names an undefined identifier `client_ip`, so the file as written does not compile. This changes no verdict.
- `init`, `CaddyModule` and the interface guards (fail2ban.go:15-34, 106-111): these only register the module with the framework.
- Caddyfile `Dispenser`: the tokens are a sequence of strings and the cursor is an index. Line numbers, file names and nesting are not modelled, and neither is the text of the error wrapping beyond `ConfigError.Message`.
- `Text.TrimSpace`: works on code points, not UTF-8 bytes, so Go's handling of invalid UTF-8 is not modelled.
- `HttpHeader.CanonicalKey`: follows the current Go rule, in which a name with any non-token character is left unchanged. Go's header-size and interning details are not modelled.
