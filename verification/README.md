# Mirrox: rewriting, routing, handshakes and injection

A Dafny model of the parts of Mirrox whose correctness is hard to see from the code, with proofs.

Mirrox is a domain-rewriting reverse proxy. A request for an incoming host is routed to an upstream host, and
upstream host names in the response are rewritten to incoming ones. The model covers

- the rewrite plan and the one-pass scan over a text (`RewritePlan.dfy`, `Rewriting.dfy`), on top of bytes, UTF-8
  (section 4 of RFC 3629), trimming and case folding (`Text.dfy`, `Utf8.dfy`, `Hosts.dfy`), and what case, order and
  white space mean in terms of character codes (`Letters.dfy`, `Spaces.dfy`, the order in `Text.dfy`);
- what the scan means: replace, in every maximal run of host bytes, its longest configured label suffix
  (`Runs.dfy`), and the laws that follow from it: accounting, locality, when nothing changes, complete and idempotent
  rewriting, round trips, UTF-8 safety (`Matches.dfy`, `RewriteLaws.dfy`, `Completeness.dfy`, `RoundTrip.dfy`,
  `TextBody.dfy`);
- configuration and the route table (`Config.dfy`, `Routing.dfy`), how hosts and requests are read (`Requests.dfy`),
  which upstream, settings and scripts a request gets from a configuration (`ConfigToMatch.dfy`), and when the order of
  wildcard rules matters (`WildcardOrder.dfy`);
- for which tables rewriting a response undoes the routing of a request: what a match is (`RoutingUndo.dfy`,
  `MatchedHosts.dfy`), the exact condition for plain hosts (`UndoExactly.dfy`) and as a computation on the table
  (`UndoFinite.dfy`), the exact condition for every accepted request (`SpacedHosts.dfy`, `UndoEverywhere.dfy`), the
  current route (`CurrentRoute.dfy`), two kinds of tables (`UndoTables.dfy`) and tables that fail
  (`UndoExamples.dfy`);
- the SOCKS5 and HTTP CONNECT clients over a byte stream (`Streams.dfy`, `Socks5.dfy`, `Connect.dfy`), SOCKS5 also
  run against a conforming server (RFC 1928, RFC 1929) with messages cut up in any way (`Socks5Agreement.dfy`), and the
  CONNECT request as a proxy reads it (`ConnectRequests.dfy`);
- script injection (`Scripts.dfy`, `ScriptTags.dfy`) and `Set-Cookie` domains (`Cookies.dfy`, `CookieSegments.dfy`).

Strings are sequences of bytes; `ValidUtf8` says which of them a Rust string can hold. Methods follow the loops and
the stream operations of the program and are proved against functions; the laws are lemmas about those functions.

Names used below. A host is *host-shaped* if it is not empty and made of label bytes and dots (`HostShaped`), and
*plain* if it is also lower-case without a trailing dot (`PlainHost`). `Occurs(h, s, c)` is a boundary-valid,
case-insensitive occurrence. Texts are `SameLetters` if they differ only in the case of ASCII letters, and text is
`Blank` if it is made of Unicode white space; both are defined by code points. A table is `WellFormed` if its hosts are plain, its suffixes are a dot and a plain host
and no two exact routes share an incoming host; `ValidatedTableIsWellFormed` derives this from what `normalize` and
`validate` establish and from the one thing they do not check, that hosts are made of host bytes.

Where comments and code differ, the model follows the code:

- "The current route always wins for its own upstream" (`src/routing.rs:121`): not always when upstream and incoming
  host are equal, because `RewritePlan::new` drops such a rule and a shorter suffix rule may then apply.
  `CurrentRouteWins` says exactly when it wins, and `IdentityRouteLoses` is a table where it does not.
- "Host patterns are ASCII" (`src/rewrite.rs:78`): nothing ensures it, and UTF-8 safety is proved without it.
- A wildcard apex is recorded as a rewrite target even when an exact route or an earlier rule takes its requests
  (`src/routing.rs:184-190`). `UndoIff` counts such recorded pairs.
- A wildcard rule accepts any label without a dot, also one with spaces or other bytes (`src/routing.rs:158-162`).
  `SpacedHostIff` and `UndoEveryIff` say exactly when such a host is restored, and `SpacedLabelIsMistaken` is a request
  that is not, on a table that restores every plain host.

## Model

| member | source | states |
|---|---|---|
| `Rewriting.RewritePlan.Rewrite` | src/rewrite.rs:55-94 | for every valid UTF-8 text and any rules, non-ASCII included: all slices are legal, the output is valid UTF-8 and equals the scan that tries every byte offset; the input is borrowed, unchanged, exactly when no host of the plan occurs in it |
| `Rewriting.RewritePlan.New` | src/rewrite.rs:38-49 | the rules left are exactly one per source host that has a non-identity rule, with the target that comes first in code order, longer hosts first and hosts of one length in code order |
| `Plans.PlanIsCanonical` | src/rewrite.rs:38-49 | that description has one solution: any two rule lists with the same members have the same plan, whatever the order and repetition |
| `Plans.PlanOfIgnoresOrder` | src/rewrite.rs:38-49 | retain, sort and dedup give the same plan for any permutation or repetition of the rules |
| `Plans.PlanOfIsPlan` | src/rewrite.rs:38-49 | retain, sort and dedup together meet that description |
| `Text.LexLessIff` | src/rewrite.rs:40-46 | the order of strings is: at the first difference the one that ends, or has the smaller code, comes first |
| `Rewriting.FoundRuleIsLongest` | src/rewrite.rs:63-69 | for arbitrary rules, the first match in plan order is the only longest rule that matches at the cursor |
| `Letters.OccursIff` | src/rewrite.rs:63-69 | a host occurs exactly where the text has its letters in any case, no letter, digit, `-` or `_` before, and none of these nor a dot after, all by code |
| `Letters.EqFoldIff` | src/rewrite.rs:66 | equality up to case is: the same bytes, or a capital letter and the small one 32 codes on, in each place |
| `Letters.MatchesInAnyCase` | src/rewrite.rs:55-94 | texts that differ only in letter case have the same matches replaced by the same rules |
| `Letters.ScanInAnyCase` | src/rewrite.rs:55-94 | and their outputs differ only in letter case, where text is copied |
| `Letters.HostInAnyCase` | src/rewrite.rs:63-75 | the source host of a rule, in any case, becomes exactly the target of the rule |
| `Rewriting.UnmatchedAtContinuation` | src/rewrite.rs:78-84 | no rule matches inside a scalar, so stepping by whole scalars loses no match |
| `Rewriting.TurnOnMatch` | src/rewrite.rs:71-76 | a turn of the loop with a match keeps: cut positions are scalar boundaries, and written, pending and remaining text make up the result |
| `Rewriting.TurnOnNothing` | src/rewrite.rs:77-85 | so does a turn without one, which moves over one scalar |
| `Utf8.MatchEndsAtBoundary` | src/rewrite.rs:71-76 | a case-insensitive match of valid UTF-8 that begins at a scalar boundary ends at one |
| `Utf8.ValidIsOctets` | src/rewrite.rs:78-84 | the local definition of valid UTF-8 used in the proofs is the octet grammar of section 4 of RFC 3629 |
| `Hosts.OverlapEndsTogether` | src/rewrite.rs:101-111 | two overlapping boundary-valid occurrences of host-shaped hosts end at the same byte |
| `Hosts.OccursInRun` | src/rewrite.rs:101-111 | inside a maximal run of host bytes a host occurs exactly as a label suffix of the run |
| `Runs.RewriteMeaning` | src/rewrite.rs:55-111 | for host-shaped rules, the byte scan equals: cut the text into maximal runs of host bytes, replace in each the longest rule host that is a label suffix, copy everything else |
| `Runs.RewriteHost` | src/rewrite.rs:55-111 | on a text that is one host, arbitrary rules do the same |
| `Matches.LengthAccounting` | src/rewrite.rs:55-94 | the output length is the input length plus what each match adds |
| `Matches.MatchesAreInOrder` | src/rewrite.rs:62-86 | the replaced matches are occurrences of rules, in order and without overlap |
| `Matches.EveryOccurrenceIsReplaced` | src/rewrite.rs:71-76 | no match is lost by jumping over a replacement: every occurrence of every rule host, visited or not, is the tail of a replaced match |
| `RewriteLaws.RewriteIsLocal` | src/rewrite.rs:55-111 | rewriting a + b is rewriting a, then b, at every cut next to a byte that is not a host byte |
| `RewriteLaws.RewriteEmbedded` | src/rewrite.rs:55-111 | a host between separators is rewritten as if it stood alone |
| `RewriteLaws.UnchangedIff` | src/rewrite.rs:55-94 | with host-shaped rules, a lower-case text is left as it is if and only if no host of the plan occurs in it |
| `Completeness.CompleteIff` | src/rewrite.rs:55-94 | for host-shaped targets, no host of the plan occurs in any output if and only if, for all pairs of rules, no source is a label suffix of a target, nor made of a prefix and the target of a rule that applies below that prefix |
| `Completeness.IdempotentIff` | src/rewrite.rs:55-94 | for host-shaped, lower-case rules without identities, as plans hold them: rewriting twice is rewriting once for every text, if and only if that condition holds |
| `Completeness.RewriteIsIdempotent` | src/rewrite.rs:55-94 | for each text, under that condition: nothing is left to match and rewriting again changes nothing |
| `Completeness.DisentangledLeavesNothing` | src/rewrite.rs:55-94 | the condition holds when no source is a label suffix of a target nor a target of a source |
| `RoundTrip.HeaderRoundTrip` | src/rewrite.rs:113-121 | request direction after response direction gives the text back up to ASCII case if and only if every occurrence of the incoming host in it ends where one of the upstream host ends (in particular when there is none) |
| `TextBody.RewriteTextBody` | src/rewrite.rs:113-121 | the one-rule rewrite of any valid UTF-8 text by any valid UTF-8 hosts is valid UTF-8 and is the function the round trip is about |
| `Letters.OneRuleInAnyCase` | src/rewrite.rs:113-121 | it turns the normalised source host, in any case, into the normalised target |
| `TextBody.NormalizeHostValid` | src/rewrite.rs:97-99 | trimming Unicode white space and dots and lower-casing keep UTF-8 valid |
| `Spaces.TrimIs` | src/rewrite.rs:97-99 | trimming takes white space, listed by code point and decoded from UTF-8, off both ends, and leaves none there |
| `Spaces.TrimOf` | src/rewrite.rs:97-99 | white space around anything that neither starts nor ends in it is exactly what comes off |
| `Requests.NormalizeHostIs` | src/rewrite.rs:97-99 | a normalised host is what is left between white space and trailing dots, with its letters and no capitals |
| `Requests.NormalizeHostOf` | src/config.rs:358-360 | a plain host in any case, with trailing dots and white space around, is read as that host |
| `Requests.SuffixOf` | src/config.rs:362-369 | a suffix may be configured with its leading dot or without |
| `Requests.HostOfRequest` | src/routing.rs:217-228 | a plain host in any case, with or without a port of digits and with white space around, is the request for that host |
| `Requests.RequestWithPort` | src/routing.rs:147-177 | so these make no difference to which route is matched |
| `Requests.RequestInBrackets` | src/routing.rs:222-225 | of a request in brackets, with or without port, the inside is normalised |
| `Requests.RequestUpToColon` | src/routing.rs:226 | anything else, a bracket that is never closed included, is read up to its first colon |
| `Requests.BlankRequest` | src/routing.rs:218-221 | a request is no host exactly if it is nothing but white space |
| `Letters.RequestInAnyCase` | src/routing.rs:147-177 | requests that differ only in letter case are matched the same |
| `TextBody.PlanKeepsUtf8` | src/rewrite.rs:38-49 | a plan made of valid UTF-8 rules has valid UTF-8 rules |
| `Config.AppConfig.Normalize` | src/config.rs:274-283 | every host and suffix is normalised in place and nothing else changes |
| `Config.AppConfig.ValidateSettings` | src/config.rs:285-333 | succeeds exactly when there is a route, a DNS server, a proper TTL range, an error status that can carry a page, and every port and proxy is acceptable; otherwise the error is the one of the first check that fails, and an error about a port or proxy names one that is wrong |
| `Config.AppConfig.Validate` | src/config.rs:285-355 | succeeds exactly when the settings are valid, no two routes share an incoming host and no two wildcard routes a suffix; duplicates are reported exactly when everything checked before is in order, and the first one is |
| `Requests.DirectIsAccepted` | src/config.rs:399-403 | `direct` in any case and with white space around is an acceptable proxy |
| `Requests.OthersAreAddresses` | src/config.rs:404-411 | any other value is acceptable exactly if its trimmed text is an acceptable address |
| `ConfigToMatch.ExactRouteGives` | src/routing.rs:40-76 | with distinct incoming hosts, each configured host gets its configured upstream, the global scripts and then its own, and each setting its own value or the default, 80 or 443 for the port |
| `ConfigToMatch.LabelGives` | src/routing.rs:78-102 | a label under the first suffix that takes its host, with no exact route for it, goes to the label under that upstream suffix, with that route's settings and scripts |
| `ConfigToMatch.ApexGives` | src/routing.rs:153-156 | the apex of such a suffix goes to the apex of its upstream suffix, with the same |
| `ConfigToMatch.MatchedIff` | src/routing.rs:147-177 | a host is matched if and only if it has an exact route or a suffix takes it |
| `ConfigToMatch.ConfiguredRouteAnswers` | src/config.rs:274-283 | a route as written in the file answers requests for its host in any case, with port and white space, with its own upstream, settings and scripts |
| `ConfigToMatch.ConfiguredWildcardAnswers` | src/config.rs:279-282 | so does a wildcard route for hosts under its suffix that nothing before it takes |
| `RoutingUndo.IndexAgrees` | src/routing.rs:72-76 | with distinct incoming hosts the map agrees with a linear search of the list, for hosts that are there and hosts that are not |
| `RoutingUndo.IndexHoldsLast` | src/routing.rs:72-76 | for any list of routes, the map holds the last route for a host and nothing else |
| `RoutingUndo.HowAccepted` | src/routing.rs:147-177 | a matched host is the host of an exact route, an apex, or one dot-free label in front of a suffix, with the upstream that belongs to it |
| `Routing.LexicalRewriteTargets` | src/routing.rs:179-193 | the map the two recording passes build gives every upstream, of all incoming hosts recorded for it, the one that comes first in code order |
| `Routing.TargetsAreMin` | src/routing.rs:195-204 | recording pair after pair computes the pointwise minimum of all pairs |
| `Routing.PointwiseMinUnique` | src/routing.rs:195-204 | the pointwise minimum depends only on which pairs there are |
| `Routing.DeclarationOrderIsIrrelevant` | src/routing.rs:115-136 | two tables with the same routes and the same wildcard rules, each in any order, have the same targets, the same `all_rewrite_pairs` and the same plan for every current route |
| `Routing.SamePairsSamePlans` | src/routing.rs:179-193 | so do any two tables that record the same pairs |
| `Routing.AllPairsAreTargets` | src/routing.rs:206-215 | `all_rewrite_pairs` lists every target once, longest upstream first, then bytewise |
| `CurrentRoute.SharedUpstreamGoesFirst` | src/routing.rs:119-136 | in the plan of another route, an upstream shared by several hosts becomes the one of them that comes first in code order |
| `Routing.RewritePlanFor` | src/routing.rs:126-136 | collecting the rules in any order gives the plan of the targets, with the current pair put over them |
| `Routing.PlanForIsValid` | src/routing.rs:126-136 | every response plan is strictly ordered, lower-case and without empty sources, so the scan ends |
| `RoutingUndo.PlanMembers` | src/routing.rs:126-136 | the rules of a response plan are exactly the selected targets that differ from their upstream |
| `UndoFinite.UndoIff` | src/routing.rs:126-193 | on every well-formed table with distinct suffixes: for all requests r and r' for plain hosts the response plan of r turns the upstream of r' into the normalised r', if and only if a condition computed from the recorded pairs and rules holds: equal upstreams have equal hosts, a pair whose upstream is where a rule takes a label names that host, and no upstream recorded for another host ends a host that is routed to itself or the apex of a rule that changes nothing |
| `UndoEverywhere.UndoEveryIff` | src/routing.rs:126-193 | for all requests r and r' the table accepts, whatever bytes their labels hold, the same holds if and only if, in addition and only if there are wildcard rules, every upstream recorded for another host has a dot, and one that is a label below the rest of a rule is recorded for that label below its suffix |
| `UndoEverywhere.SpacedHostIff` | src/routing.rs:147-177 | on a table that restores all plain hosts, a host whose label holds other bytes, c the last of them, is restored by the plan of a plain host if and only if no target occurs before c and the run after c is no target for another host |
| `UndoEverywhere.RuleKinds` | src/routing.rs:126-136 | when recorded upstreams have dots, the only rule of any plan whose source has other bytes or no dot is the current route's own |
| `UndoExactly.UndoIffUnambiguous` | src/routing.rs:126-193 | the condition of `UndoIff` said of hosts: no upstream is paired with two plain hosts (routed or recorded), and no plain host routed to itself ends in an upstream recorded for another |
| `MatchedHosts.RequestMatched` | src/routing.rs:147-177 | the hosts of every match are in normal form, so the pair of the current route goes into its plan unchanged |
| `UndoExactly.UndoIffInjective` | src/routing.rs:126-193 | in particular, when every apex belongs to its rule and nothing is routed to itself, all plain hosts are restored if and only if no two accepted plain hosts share an upstream |
| `UndoTables.ExactTableUndoIff` | src/routing.rs:126-193 | without wildcard rules, every accepted request is undone if and only if no two routes share an upstream and no identity route ends in the upstream of another kind of route |
| `UndoTables.OneRuleUndoes` | src/routing.rs:126-193 | a table of one wildcard rule restores every plain host |
| `UndoTables.OneRuleUndoesEvery` | src/routing.rs:126-193 | it undoes every accepted request if and only if its upstream apex has a dot or the rule changes nothing |
| `CurrentRoute.HostInContext` | src/rewrite.rs:55-111 | on every well-formed table a host between separators is rewritten as it is alone |
| `CurrentRoute.UndoInContext` | src/routing.rs:126-136 | on every well-formed table, between any separators, an upstream becomes the plain host routed to it if and only if it does alone |
| `CurrentRoute.CurrentInContext` | src/routing.rs:119-136 | on every well-formed table, ambiguous ones included, the matched route's upstream between separators becomes its incoming host if the two differ |
| `UndoExactly.FreshIsRouted` | src/routing.rs:153-176 | a label longer than every host of the table is routed by the rule whose suffix follows it, and by no other |
| `CurrentRoute.CurrentRouteWins` | src/routing.rs:119-136 | for every accepted request: the current route is restored from its own upstream if and only if the two differ or no upstream recorded for another host occurs in it |
| `CurrentRoute.CurrentHostWins` | src/routing.rs:119-136 | for a plain host: if and only if they differ or no other such recorded upstream is a label suffix of it |
| `UndoExamples.SpacedLabelIsMistaken` | src/routing.rs:158-162 | an accepted request, `x b.example.com`, whose upstream `x b.bgm.tv` becomes `x z.com` |
| `UndoExamples.SpacedUndoesPlainHosts` | src/routing.rs:126-193 | the table of that request mixes exact routes and a wildcard rule and restores every plain host |
| `UndoExamples.DotlessIsMistaken` | src/routing.rs:158-162 | a table that restores all plain hosts but not all requests, because an upstream has no dot |
| `UndoExamples.SharedUpstreamIsMistaken` | src/routing.rs:126-136 | two exact routes with one upstream: the response for the one gives its host in place of the other's |
| `UndoExamples.IdentityRouteLoses` | src/rewrite.rs:38-39 | an identity route that loses its own upstream to a suffix rule |
| `WildcardOrder.RuleAcceptsIff` | src/routing.rs:153-162 | a single-dot rule accepts a host exactly when its suffix is "." + host or the host from its first dot on |
| `WildcardOrder.TwoRulesAccept` | src/routing.rs:153-176 | at most two rules with distinct suffixes accept a host, and then one is its apex rule and the other its one-label rule |
| `WildcardOrder.OrderIrrelevantIff` | src/routing.rs:153-176 | no reordering of the wildcard rules changes the match of a host if and only if the rules that accept it agree on its route |
| `WildcardOrder.OneRuleOrderIrrelevant` | src/routing.rs:153-176 | this holds for every host that does not meet both an apex rule and a one-label rule |
| `WildcardOrder.ValidatedTableIsWellFormed` | src/config.rs:274-353 | normalised, validated routes of host-shaped hosts make a well-formed table with distinct suffixes |
| `Scripts.BuildScriptTags` | src/scripts.rs:49-66 | the loop builds the tags of all scripts in order |
| `Scripts.InjectScripts` | src/scripts.rs:70-89 | the tags are put in front of the last closing head, or at the end; cutting there is legal in valid UTF-8 |
| `Scripts.InjectAtLastHead` | src/scripts.rs:93-96 | the place is the last case-insensitive `</head>`, or the end if there is none |
| `Scripts.HeadAtIsLowerMatch` | src/scripts.rs:93-96 | matching in place is finding `</head>` in the lower-cased text |
| `Scripts.InjectComposes` | src/scripts.rs:70-89 | injecting a, then b, is injecting a ++ b, for all documents and scripts |
| `Scripts.InjectionPointMoves` | src/scripts.rs:70-96 | tags never contain or straddle a closing head: after they are inserted, the place is the same one, shifted |
| `Scripts.InjectIsUndone` | src/scripts.rs:70-89 | cutting the inserted tags out gives the document back |
| `Scripts.EscapeFusion` | src/scripts.rs:99-104 | the four replacements one after the other equal one replacement per character |
| `Scripts.UnescapeInvertsEscape` | src/scripts.rs:99-104 | unescaping gives the text back |
| `Scripts.EscapeIsInert` | src/scripts.rs:99-104 | escaped text has no quote and no angle bracket |
| `ScriptTags.TagIs` | src/scripts.rs:60-63 | a tag is a script element whose address, unescaped, is the source, without quote or angle bracket in it, and a line break |
| `ScriptTags.RemoteAddress` | src/scripts.rs:55-56 | an `http://` or `https://` script keeps its address |
| `ScriptTags.LocalAddress` | src/scripts.rs:57-59 | any other is addressed by the prefix without its trailing slashes, one slash and its name |
| `ScriptTags.TagsInOrder` | src/scripts.rs:53-65 | the tags of a list are the tag of its first script and then those of the others |
| `Socks5.ConnectSocks5` | src/upstream_proxy.rs:285-351 | bytes written, bytes left unread and result of the handshake on any stream, as a function of what the proxy sends |
| `Socks5.AuthenticateSocks5` | src/upstream_proxy.rs:353-383 | the same for the login |
| `Socks5.ReadSocks5BoundAddress` | src/upstream_proxy.rs:385-420 | the same for the bound address |
| `Socks5.TunnelIffAcceptingReply` | src/upstream_proxy.rs:301-350 | the tunnel opens if and only if the stream begins with an accepting reply; then exactly that reply, at most 266 bytes, has been read and everything after it is left |
| `Socks5.HandshakeContinues` | src/upstream_proxy.rs:285-420 | more bytes never change an outcome that has been reached and only add to what has been sent |
| `Socks5.NegotiationErrors` | src/upstream_proxy.rs:306-324 | which error comes of which first bytes: wrong version, no method, an unknown method, credentials of more than 255 bytes, a refused login |
| `Socks5.RequestErrors` | src/upstream_proxy.rs:326-350 | and of which answer: host too long, refused, unknown address type; otherwise the connection was closed |
| `Socks5.HandshakeSends` | src/upstream_proxy.rs:291-339 | credentials are sent exactly to a proxy that asks for them, and the host exactly after a completed negotiation |
| `Socks5Agreement.OfferIs` | src/upstream_proxy.rs:291-296 | the methods a server parses from the client's first bytes are 0 and, exactly if there is a user name, 2 |
| `Socks5Agreement.LoginAgreement` | src/upstream_proxy.rs:291-383 | against a server that asks for a login whenever it is offered, every run that has come to rest ends connected to the host and port, logged in with the client's user name and its password or an empty one if it has a user name, and without login otherwise |
| `Socks5Agreement.HandshakeAgreement` | src/upstream_proxy.rs:285-383 | every run against a conforming server that accepts, with messages cut up and delayed in any way, ends with the tunnel open, no byte unread and the server having understood the client's host, port, user name and password |
| `Socks5Agreement.RunsComeToRest` | src/upstream_proxy.rs:285-351 | such a run never deadlocks before that and has at most as many steps as there are bytes |
| `Socks5Agreement.RunInvariant` | src/upstream_proxy.rs:285-351 | in every reachable state both sides have said a prefix of the full exchange, determined by what they have taken in |
| `Socks5Agreement.UnderstandsAll` | src/upstream_proxy.rs:291-339 | the server's parse of the sent bytes gives back host, big-endian port and credentials |
| `Connect.ConnectHttp` | src/upstream_proxy.rs:237-283 | the request is written, and exactly as much is read as the response head takes |
| `Connect.ConnectIffAcceptingHead` | src/upstream_proxy.rs:259-282 | succeeds if and only if the shortest prefix ending in CRLF CRLF has at most 8192 bytes and begins with `HTTP/1.1 2` or `HTTP/1.0 2`, and consumes exactly that prefix |
| `Connect.HeadIgnoresPayload` | src/upstream_proxy.rs:259-282 | no byte after the head is consumed or matters |
| `ConnectRequests.ReadHeadFails` | src/upstream_proxy.rs:261-282 | a complete head with another status is refused with its text; without a head in 8192 bytes the answer is too large after one byte more, or the connection was closed |
| `ConnectRequests.AcceptingIff` | src/upstream_proxy.rs:276 | accepted is HTTP/1.1 or HTTP/1.0 with a status that starts with 2 |
| `ConnectRequests.EndsHeadIff` | src/upstream_proxy.rs:261 | a head ends at CR LF CR LF |
| `ConnectRequests.RequestParses` | src/upstream_proxy.rs:243-257 | for a host without spaces and line breaks, a proxy reads the request back as CONNECT for host and port, with the authority in `Host` too, the credentials if there are any, and nothing of what follows |
| `Connect.RequestIsOneHeadIff` | src/upstream_proxy.rs:243-253 | the request is one head, ending at its first blank line, if and only if there is no CRLF CRLF in the host nor in the credentials and the CRLF after them |
| `Connect.DecimalRoundTrip` | src/upstream_proxy.rs:243 | the decimal port reads back as the port |
| `Cookies.RewriteCookieDomain` | src/rewrite.rs:123-133 | the loop rewrites segment after segment, with both domains normalised first |
| `Cookies.SegmentsJoin` | src/rewrite.rs:128-130 | the segments join to the input, each has at most one `;`, at its end, and all but the last have one |
| `Cookies.RewriteIsSegmentwise` | src/rewrite.rs:128-130 | the result is the rewritten segments, joined |
| `Cookies.OnlyNamedHostChanges` | src/rewrite.rs:135-174 | a segment changes only if it is a domain attribute naming the source, with or without a dot, and then only in that host |
| `CookieSegments.NamedIsRewritten` | src/rewrite.rs:135-174 | `domain` in any case, `=`, perhaps a dot, and the source in any case, with white space around name and value and perhaps a semicolon at the end, is rewritten to the same with the target |
| `CookieSegments.ChangedIsNamed` | src/rewrite.rs:135-174 | every segment that changes is written like that, and changes only in its host |
| `Cookies.ParseDomainBuilds` | src/rewrite.rs:136-159 | the parts a segment is cut into join to the segment |
| `Cookies.CookieIdempotent` | src/rewrite.rs:123-174 | for a host-shaped target without leading dot, rewriting twice is rewriting once |
| `Cookies.CookieRoundTrip` | src/rewrite.rs:123-174 | for such a target, the swapped call gives the input back up to ASCII case if and only if every segment that names the target also names the source |
| `Cookies.RegistrableSuffixIs` | src/rewrite.rs:192-203 | the registrable suffix is the host itself or follows a dot in it, and has exactly one dot if the host has any |
| `Cookies.RegistrableSuffixReplaces` | src/proxy.rs:416-423 | the suffixes used for response cookies meet the hypothesis of the two laws above, unless they begin with a dot |

## Left out

- HTTP forwarding, WebSocket piping, TLS, timeouts, tasks, DNS resolution, CLI, server wiring and tracing: work of libraries.
- Decompression and content sniffing, content-type checks, script file serving, error pages: foreign code decides, or single-branch facts.
- TOML parsing and environment overrides: the model starts from configuration records.
- URL parsing of upstream proxies: `ValidateRoute` and `Validate` take what the parser accepts as a parameter.
- Base64: the CONNECT request takes the encoded credentials as given.
- ErrorStatusOk: the numbers of `src/config.rs:301-318` are stated as they stand there.
- Failing reads and writes: a stream delivers its bytes and then ends; `Closed` stands for every failure to read, and writes succeed. Connecting and looking up the proxy are not modelled.
- The text of error messages, and the lossy decoding of a CONNECT response: only the ASCII prefix test on its bytes is kept.
- Library sort, dedup, retain, split, find and map iteration: functions stand for them (insertion sort for the stable sort).
- `rewrite_pairs_for` and the header names of `src/proxy.rs:393-414`: they only pass values to functions that are modelled.
- RequestParses: a host with a space or line break in it, which a wildcard route accepts, makes a request line that reads differently, and is not covered.
- TwoRulesAccept: suffixes with several leading dots, which configuration does not refuse, are not covered.
- UndoInContext: speaks of plain hosts; surroundings of hosts whose labels hold other bytes are not described.
- SpacedHostIff: is about plans of plain current hosts; for other current hosts `UndoEveryIff` covers tables, not single requests.
- UndoIff: assumes that routes and suffixes are made of host bytes, which configuration does not check.
