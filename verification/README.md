# A verified model of the DIDComm client

The project models the self-contained logic of the client library: the message-pickup session with
a mediator, the text and byte codecs, the key conversion on Curve25519, the IP literal guard, the
resolver's cache, the did:scid conversions and the authcrypt envelope. `dafny verify dfyconfig.toml`
checks all of it.

Modules follow the source files.

- `Mailbox`, `SeenSet`, `MediatorSession`, `MediatorProtocol`, `FrameFates`, `Reconnects`:
  `src/mediator-transport.js`. The class holds the mutable fields; `MediatorProtocol` is the whole
  system as a step machine, with the mediator's queue, frames and acks in flight, one program counter
  per frame task, crashes and reconnects. A step is what the client does between two awaits.
  `FrameFates` follows one frame from its arrival on; `Reconnects` runs any number of sessions side by
  side over one queue. What a run promises is stated by its events (`Trace`, `Moments`), not by the
  history fields of the state.
- `Positional`, `Multibase`: `src/multibase.js`. `Base64Url`: `src/base64url.js`. The specifications
  are positional values (section 5 of RFC 4648 for base64url), the methods are the in-place loops with
  the 32-bit operators of `JsNumber`.
- `Fermat`, `DidKey`: `src/did-key.js`. Fermat's little theorem is proved for every prime; that
  2^255 - 19 is prime is a hypothesis where it is needed.
- `Strings`, `NetGuard`, `Ipv6Grammar`, `IpClassifier`: `src/net-guard.js`. `Ipv6Grammar` defines the
  text forms of section 2.2 of RFC 4291 without reference to the parser.
- `OrderedMap`, `LruCache`, `Resolver`: `src/resolver.js`. `LruCache` also defines the timestamp LRU
  that the insertion-ordered map is shown to refine.
- `DidScid`, `ScidWebvh`, `SourceBook`: `src/did-scid.js`.
- `Bytes`, `ConcatKdf`, `A256CbcHs512`, `Envelope`, `Pack`, `Unpack`, `Authcrypt`: `src/concat-kdf.js`,
  `src/a256cbc-hs512.js`, `src/ecdh-1pu.js`, `src/pack.js`, `src/unpack.js`.

Parameters of the model: the clock (`now`), the randomness of an envelope (ephemeral scalar, content
key, iv), SHA-256, HMAC, AES-CBC, AES-KW, Diffie-Hellman, UTF-8 and JSON text. Their laws are the
predicates `Envelope.DhLaw`, `WrapLaw`, `Utf8Law`, `JsonLaw` and `A256CbcHs512.Lawful`;
`Consistency.LawsAreConsistent` gives a suite that meets them all. No hash or MAC
of the envelope is assumed injective: where two keys or two tags must differ, the lemma returns the
colliding inputs. Only the queue ids of the mediator protocol take SHA-256 as collision-free, in
`MediatorProtocol.NothingIsLost`.

Where an obvious claim is false, the model keeps the code and states what holds.

- Deduplication does not cover a copy checked before the first copy is marked
  (`MediatorProtocol.ConcurrentCopiesAreBothHandedOff`). While a frame's id is remembered, a further
  hand-off of it is possible if and only if a task for it is past the check
  (`MediatorProtocol.HandedAgainExactly`).
- Storing under a cached key does not refresh its place: `Resolver.StoringAgainDoesNotRefresh` is a run in
  which two DIDs in flight share a key and the entry stored last is evicted early. A store counts as a use
  if and only if the key is not cached or already last (`LruCache.SetRefreshesExactly`), and a run of the
  resolver is a run of the pure timestamp LRU if and only if each of its stores is such
  (`Resolver.RefreshesExactly`).
- `setCacheTtl(0)` does not stop a resolution in flight from storing (`Resolver.OffStillStores`). A cache
  that is off and empty stays empty if and only if nothing is in flight (`Resolver.OffStaysEmptyExactly`),
  and what is stored while it is off is never found (`Resolver.StoredOffIsNeverFound`).
- `stripScidSrc` is not idempotent (`DidScid.StripIsNotIdempotent`); `StripTwice` says exactly when it is.
- `base64url.decode` ignores the unused low bits of the last character; `Base64Url.EncodeDecode` says
  exactly when decoding is undone by encoding.
- unpack compares the decoded `apu` with `skid` (src/unpack.js:200-205). A decoder drops a leading byte
  order mark, so for a key id that starts with one the envelope is refused although pack sent it;
  `Authcrypt.UnpackUndoesPack` covers this case too.

## Model

| member | source | states |
|---|---|---|
| `MediatorProtocol.NothingIsLost` | src/mediator-transport.js:652-832 | in every run a message that was stored is still queued, or the run has an event in which unpack refused it for good (and the mediator did not send it), or events in which it was unpacked, delivered and its consumer returned; only ids of such messages are acked or remembered, and never that of a mediator frame that is not a stored reply |
| `FrameFates.QueuedFrameIsHandled` | src/mediator-transport.js:809-831 | in any state, a queued message that arrives is delivered to waiters or inbox, handed off once, then remembered, acked and deleted, and nothing else is deleted |
| `FrameFates.TspFrameIsHandled` | src/mediator-transport.js:754-780 | the same for a TSP frame and its consumer |
| `FrameFates.RefusedFrameIsDropped` | src/mediator-transport.js:685-700 | a frame refused for good reaches nobody and is remembered, acked and deleted |
| `FrameFates.FailedFrameStaysQueued` | src/mediator-transport.js:701-710 | a frame whose unpacking fails for now, or that is refused although the mediator sent it, changes nothing: it is neither acked nor remembered |
| `FrameFates.FailedTspFrameStaysQueued` | src/mediator-transport.js:754-775 | so does a TSP frame that does not decode, has no consumer, or whose consumer throws |
| `FrameFates.OwnFrameIsNotAcked` | src/mediator-transport.js:797-824 | a frame of the mediator that is no stored reply is delivered and neither remembered nor acked |
| `FrameFates.CrashForgets` | src/mediator-transport.js:788-792 | in any state, after a crash of the host a queued message that is pushed again is handed off again, whatever was remembered |
| `MediatorProtocol.AckKeepsNoLoss` | src/mediator-transport.js:898-923 | deleting on an ack removes only a message that was handed off or refused |
| `MediatorProtocol.SessionsStaySound` | src/mediator-transport.js:783-890 | in every run of the whole system, under every interleaving, the session's correlation state and its dedup set keep their invariants |
| `Reconnects.NothingIsLostAcrossSessions` | src/mediator-transport.js:652-832 | the same in every run of any number of sessions side by side, tasks of older ones still running: a deposited message is queued or some session had those events, no session acks or remembers anything else, and each one stays sound |
| `Reconnects.NewSessionStartsAfresh` | src/mediator-transport.js:788-792 | whatever older sessions remember, a new one that is pushed a queued message delivers it, hands it off and remembers it, and the older ones stay as they are |
| `MediatorProtocol.RememberedIsNotHandedAgain` | src/mediator-transport.js:754-832 | while an id stays remembered, hand-offs of that frame come only from tasks already past the dedup check |
| `MediatorProtocol.HandedAgainExactly` | src/mediator-transport.js:754-832 | with its id remembered, a frame is handed off again in some continuation that keeps it remembered if and only if a task for it is past the check now |
| `MediatorProtocol.RedeliveryIsReacked` | src/mediator-transport.js:760-766 | a redelivery checked while its id is remembered starts an ack and changes nothing else, for TSP and DIDComm |
| `MediatorProtocol.EveryRedeliveryIsReacked` | src/mediator-transport.js:754-824 | over any run in which an id stays remembered, every copy that reaches the check becomes an ack for that id with nothing else changed, and no further task gets past the check |
| `MediatorProtocol.ConcurrentCopiesAreBothHandedOff` | src/mediator-transport.js:815-827 | a run in which two copies pass the check before either is marked, and both are handed off |
| `MediatorProtocol.StagesAlwaysFit` | src/mediator-transport.js:809-815 | in every run a frame reaches only the stages of its kind; the mediator's own frames never get an ack id unless they are stored replies |
| `MediatorProtocol.TrafficIsBounded` | src/mediator-transport.js:693-831 | steps taken plus the measure left are at most the initial measure plus twelve per pushed frame, even when every ack is answered by a status |
| `MediatorProtocol.ProgressDecreases` | src/mediator-transport.js:809-831 | every processing step of a frame or an ack strictly decreases the measure |
| `MediatorProtocol.NotQuiescentCanProgress` | src/mediator-transport.js:652-832 | while a frame or an ack is in flight a processing step is enabled for it |
| `MediatorProtocol.Quiesces` | src/mediator-transport.js:652-832 | from every such state processing steps alone reach one with no frame and no ack in flight, in at most as many steps as the measure |
| `MediatorProtocol.StuckMeansQuiescent` | src/mediator-transport.js:652-832 | a state in which nothing can be processed has no frame and no ack in flight |
| `Mailbox.NoMissedOrDoubledReply` | src/mediator-transport.js:840-977 | in every reachable session no waiter matches a buffered message, every promise ever made is pending or settled, each at most once and only by its thread and an accepted sender, a message resolves at most one waiter, and the inbox holds at most 256 |
| `Mailbox.UnclaimedIsKept` | src/mediator-transport.js:856-868 | over every run a delivered message that nobody waits for, unless it is an unthreaded frame of the mediator, is in the inbox until a waiter takes it or 256 later such messages have come in |
| `Mailbox.RacedReplyIsAnswered` | src/mediator-transport.js:865-949 | in every run a waiter that accepts such a message before then is answered at once, with it or an older one |
| `Mailbox.MatchesExactly` | src/mediator-transport.js:1010-1032 | a waiter on a thread takes exactly the messages with that `thid`, the problem reports without `thid` whose `pthid` it is, and the others without `thid` whose id it is, from an accepted sender |
| `Mailbox.DeliverResolvesOldest` | src/mediator-transport.js:849-856 | a delivery that some waiter accepts resolves the oldest such waiter and is not buffered |
| `Mailbox.WaitTakesOldest` | src/mediator-transport.js:945-949 | a late waiter takes the oldest buffered message that answers it |
| `Mailbox.AcceptsByIdentity` | src/mediator-transport.js:988-1007 | a normalised `from` accepts exactly the senders whose identity one of its DIDs has |
| `Mailbox.FromIsRefused` | src/mediator-transport.js:988-996 | a `from` is refused exactly when it is an empty list or holds an empty DID; without one every sender is accepted |
| `Mailbox.SourceDoesNotMatter` | src/mediator-transport.js:988-996 | waiting for a did:scid with a source is waiting for the bare did:scid |
| `MediatorSession.MediatorSession.Deliver` | src/mediator-transport.js:840-872 | the new state is the delivery step of `Mailbox`; which waiter is resolved, what is buffered at the end of an inbox of 256, and which listener is called |
| `MediatorSession.MediatorSession.DispatchFrame` | src/mediator-transport.js:815-824 | a remembered id is only re-acked, anything else is delivered |
| `MediatorSession.MediatorSession.MarkSeen` | src/mediator-transport.js:885-890 | the set is the window of the newest 1024 distinct ids after the mark, the marked id among them |
| `MediatorSession.MediatorSession.WaitFor` | src/mediator-transport.js:943-958 | the new state is the wait step of `Mailbox`; answered at once exactly when a buffered message matches; a bad `from` changes nothing |
| `MediatorSession.MediatorSession.OnTimeout` | src/mediator-transport.js:951-955 | the timed-out waiter alone is removed and rejected, all others stay |
| `MediatorSession.MediatorSession.Close` | src/mediator-transport.js:965-977 | every pending waiter is rejected once and none is left |
| `SeenSet.MarkKeepsWindow` | src/mediator-transport.js:885-890 | the set is exactly the newest 1024 entries, all distinct |
| `SeenSet.LeavesOnlyAfterNewer` | src/mediator-transport.js:885-890 | an id leaves the set only when 1024 distinct newer ids have entered after it |
| `Positional.CanonicalIsUnique` | src/multibase.js:36-93 | a number has one digit string without a superfluous top zero |
| `Positional.TranscodeRoundTrip` | src/multibase.js:36-93 | changing base and back restores a digit string, leading zeros included |
| `Multibase.EncodeOps` | src/multibase.js:42-51 | carries stay at most 255 and intermediates at most 14847, where the encoder's 32-bit operators are exact |
| `Multibase.DecodeOps` | src/multibase.js:74-86 | carries stay at most 57 and intermediates at most 14847, where the decoder's masks and shifts are exact |
| `Multibase.EncodePass` | src/multibase.js:42-51 | the in-place carry loop multiplies the number by 256 and adds the byte, and leaves canonical digits |
| `Multibase.Base58btcEncode` | src/multibase.js:36-57 | the text is the base-58 numeral of the bytes' base-256 number, one `1` for each leading zero byte |
| `Multibase.Base58btcDecode` | src/multibase.js:66-93 | accepts exactly strings over the alphabet and returns the bytes they denote, else the first bad position |
| `Multibase.DecodeEncode` | src/multibase.js:36-93 | decoding undoes encoding for every byte string |
| `Multibase.EncodeDecode` | src/multibase.js:36-93 | encoding undoes decoding for every string over the alphabet |
| `Multibase.DecodeMultikey` | src/multibase.js:128-145 | splits after the leading varint; which inputs are refused and why |
| `Multibase.MultikeyRoundTrip` | src/multibase.js:114-145 | decoding gives back codec and key exactly when the codec is a well-formed varint, or unterminated with no key |
| `Multibase.MultikeyReencodes` | src/multibase.js:114-145 | encoding what was decoded gives back every accepted string |
| `Base64Url.Encode` | src/base64url.js:22-48 | the loop's output is the sextets of the bytes over the alphabet |
| `Base64Url.Decode` | src/base64url.js:61-94 | accepts exactly the normalised strings over the alphabet of length not 1 mod 4, returns the bytes of their sextets, else the first bad position |
| `Base64Url.NormalisedExactly` | src/base64url.js:61-66 | normalising drops exactly the trailing `=` and replaces `+` and `/` by `-` and `_` |
| `Base64Url.DecodeChars` | src/base64url.js:74-93 | the accumulator with its int32 wrap-around fills the buffer of floor(3L/4) bytes in bounds with the right bytes |
| `Base64Url.WrapKeepsLowBits` | src/base64url.js:86-90 | the int32 wrap of the accumulator leaves its low bits as they were |
| `Base64Url.Lengths` | src/base64url.js:71-74 | encoded lengths are never 1 mod 4 and L sextets hold floor(3L/4) bytes |
| `Base64Url.DecodeEncode` | src/base64url.js:22-94 | decoding undoes encoding for every byte string |
| `Base64Url.EncodeDecode` | src/base64url.js:61-94 | encoding gives back the normalised text exactly when the unused low bits of its last character are zero |
| `Fermat.Euclid` | src/did-key.js:249-256 | a prime that divides a product divides a factor |
| `Fermat.FermatNat` | src/did-key.js:249-256 | a^p = a mod p for every prime p |
| `Fermat.FermatInverse` | src/did-key.js:249-256 | a^(p-2) inverts a mod p when the prime p does not divide a |
| `DidKey.ModPow` | src/did-key.js:258-269 | square-and-multiply computes base^exp mod m |
| `DidKey.ModInverse` | src/did-key.js:254-256 | the result inverts a modulo a prime that does not divide it, and is 0 for 0 |
| `DidKey.EdwardsToMontgomery` | src/did-key.js:219-227 | u is below p and u(1 - y) = 1 + y mod p, or 0 when y = 1 mod p |
| `DidKey.MontgomeryUIsUnique` | src/did-key.js:199-206 | those conditions determine u |
| `DidKey.MapIsInjective` | src/did-key.js:199-206 | two y other than 1 mod p with the same u are equal mod p |
| `DidKey.LeToBigInt` | src/did-key.js:232-238 | the little-endian number of the bytes |
| `DidKey.BigIntToLe32` | src/did-key.js:240-247 | the 32 little-endian bytes of the number |
| `DidKey.Ed25519PublicKeyToX25519` | src/did-key.js:210-228 | the result encodes the Montgomery u, below p, of the input's little-endian number modulo 2^255; the input is not changed |
| `DidKey.SignIsIgnored` | src/did-key.js:214-217 | two keys that differ in the sign bit only convert to the same bytes |
| `DidKey.FieldIs25519` | src/did-key.js:41-41 | the modulus is 2^255 - 19 |
| `NetGuard.OctetExact` | src/net-guard.js:187-191 | a piece is accepted for an octet exactly in its decimal spelling without leading zeros |
| `NetGuard.Ipv4Exact` | src/net-guard.js:183-194 | a string parses to a quad exactly when it is the quad's dotted-decimal spelling |
| `NetGuard.ParseIpv4` | src/net-guard.js:183-194 | the loop returns the specified parse |
| `NetGuard.ParseIpv6` | src/net-guard.js:201-241 | brackets, embedded quad and `::` are reassigned and parsed as specified |
| `Ipv6Grammar.GroupIsHex` | src/net-guard.js:219-224 | a piece is accepted for a group exactly when it is one to four hex digits, and read as the number of their places in the alphabet to base 16 |
| `Ipv6Grammar.PaddedGroupIsRead` | src/net-guard.js:219-224 | the four-digit spelling of a group, and those without its leading zeros, are read as the group |
| `Ipv6Grammar.Ipv6Exact` | src/net-guard.js:201-241 | a string parses to eight groups exactly when it is, optionally in brackets, a text form of section 2.2 of RFC 4291 that denotes them |
| `Ipv6Grammar.EveryFormIsParsed` | src/net-guard.js:201-241 | every printed form of any eight groups, with or without `::`, quad tail or brackets, is parsed to them |
| `Ipv6Grammar.OnlyFormsAreParsed` | src/net-guard.js:201-241 | for an accepted string there is a well-formed address with that text and value |
| `Ipv6Grammar.GapIsUnique` | src/net-guard.js:227-233 | in a form with `::` it is the only one, so first and last occurrence agree |
| `IpClassifier.V4ToUint` | src/net-guard.js:196-198 | the shifts and `>>> 0` give the quad's 32-bit number, the sign bit included |
| `IpClassifier.V4Blocked` | src/net-guard.js:144-150 | true exactly when some table row has the same prefix |
| `IpClassifier.BlockedRanges` | src/net-guard.js:101-150 | the shift comparison over the table is membership in one of the fourteen intervals |
| `IpClassifier.EmbeddedVerdict` | src/net-guard.js:152-170 | a compatible, mapped, translated, NAT64 or 6to4 address gets the verdict of its quad |
| `IpClassifier.MasksAreBounds` | src/net-guard.js:174-178 | on a 16-bit group the bitwise mask 0xf000 is zero exactly below 0x1000, and the mask 0xe000 is 0x2000 exactly from 0x2000 to 0x3fff |
| `JsNumber.OrOfWords` | src/net-guard.js:212-212 | the int32 bitwise or of a multiple of 2^k and a number below 2^k is their sum, sign bit included |
| `IpClassifier.UnicastVerdict` | src/net-guard.js:166-180 | an address without a quad passes exactly when it is in 2000::/3 and outside 2001::/23, 2001:db8::/32 and 3fff::/20 |
| `IpClassifier.SpellingsAgree` | src/net-guard.js:133-180 | every text spelling of an embedded quad gets the verdict of the quad's own text |
| `IpClassifier.PassesExactly` | src/net-guard.js:133-180 | exactly which strings are not blocked; everything that is not an IP literal is |
| `IpClassifier.IsBlockedIp` | src/net-guard.js:133-142 | the parsers and classifiers composed, IPv4 first |
| `LruCache.EvictsOne` | src/resolver.js:147-157 | a cache with room is left alone; a full one loses exactly one entry, the first expired or else the front |
| `LruCache.VictimAgrees` | src/resolver.js:144-157 | that entry is the least recently used among the expired, or among all when none is expired |
| `LruCache.StepRefines` | src/resolver.js:137-187 | every cache operation is a step of the timestamp LRU on the represented state |
| `LruCache.RunRefines` | src/resolver.js:137-187 | every run of the cache is a run of the timestamp LRU and stays within the limit |
| `LruCache.SetRefreshesExactly` | src/resolver.js:159-163 | storing agrees with a use in the timestamp LRU if and only if the key is not cached or is already last |
| `LruCache.RunIsPureExactly` | src/resolver.js:137-187 | a run of the cache is a run of the LRU that counts every store as a use if and only if every store refreshes |
| `Resolver.StepKeepsInv` | src/resolver.js:165-208 | every event keeps: cached entries come from settled calls, in-flight entries are exactly the unsettled shared calls, the cache is bounded with distinct keys |
| `Resolver.SizeIsBounded` | src/resolver.js:147-163 | in every run with a whole-number limit the cache never exceeds it |
| `Resolver.HitProvenance` | src/resolver.js:175-186 | in every run a hit is an unexpired result with a document and no error that a handler call without `versionTime` gave for a DID with that cache key |
| `Resolver.WaitersShareOneCall` | src/resolver.js:188-207 | a caller that waits gets the one unsettled shared call of its DID |
| `Resolver.SuccessIsServed` | src/resolver.js:137-200 | a shared call that gives a document without error is served under its key until its lifetime has passed and not after; any other result leaves the cache alone |
| `Resolver.FailureIsRetried` | src/resolver.js:201-204 | a shared call that is rejected leaves the cache alone and the in-flight map, so the next caller starts a new call |
| `Resolver.BypassesExactly` | src/resolver.js:165-173 | a call with `versionTime`, for did:key or did:peer, or with caching off starts a call of its own and leaves cache and in-flight map alone |
| `Resolver.ForgetsExactly` | src/resolver.js:211-225 | `invalidate` drops the entry of that identity alone, `clearCache` all, `setCacheTtl` all exactly when the lifetime is not positive; nothing in flight is touched |
| `Resolver.MethodExactly` | src/resolver.js:165-168 | the method of a DID is what stands between its first two colons |
| `Resolver.RefinesTimestampLru` | src/resolver.js:137-208 | the cache of every run is that of the timestamp LRU; storing counts as a use when no two DIDs in flight share a key |
| `Resolver.StoresAreFresh` | src/resolver.js:191-206 | in such runs nothing is stored under a key that is cached |
| `Resolver.RefreshesExactly` | src/resolver.js:137-208 | the cache of a resolver run is that of the LRU that counts every store as a use if and only if each settled call stores under a key that is not cached or already last |
| `Resolver.StoringAgainDoesNotRefresh` | src/resolver.js:159-206 | a run of the resolver in which two calls in flight share a key, and the entry stored last is evicted before an older one |
| `Resolver.SharedKeysOccur` | src/resolver.js:165-191 | any four bare did:scid references, one taken under two sources, give five DIDs that use the cache with the first two under one key |
| `Resolver.OffStillStores` | src/resolver.js:222-225 | the concrete run: a resolution in flight still stores after the cache is switched off |
| `Resolver.OffStaysEmptyExactly` | src/resolver.js:191-225 | with caching off and an empty cache, the cache stays empty in every continuation that keeps it off if and only if nothing is in flight |
| `Resolver.StoredOffIsNeverFound` | src/resolver.js:159-225 | in every run whose clock does not go back, what a call settled with caching off has stored is never a hit |
| `Resolver.DidResolver.ResolveDid` | src/resolver.js:165-208 | answer and new state are those of the specified step |
| `Resolver.DidResolver.MakeRoomFor` | src/resolver.js:147-157 | the two loops compute the specified eviction |
| `Resolver.DidResolver.Succeeded` | src/resolver.js:194-200 | a settled call stores a cacheable result and leaves the in-flight map |
| `DidScid.SrcRoundTrip` | src/did-scid.js:38-101 | for a bare reference, removing an added source restores it and the source reads back, exactly for a non-empty source without `&` and `#` |
| `DidScid.IdentityUnderSource` | src/did-scid.js:88-124 | adding a source keeps the identity of a bare reference exactly when the part before any `#` is a proper source |
| `DidScid.IdentityIsIdempotent` | src/did-scid.js:122-124 | taking the identity twice changes nothing |
| `DidScid.StripKeepsIdentity` | src/did-scid.js:63-124 | removing the source never changes the identity |
| `DidScid.StripExactly` | src/did-scid.js:38-76 | a reference loses a source exactly when it is a did:scid with the one query parameter `src`, non-empty and without `&`; which source, and what is left; any other stays as it is |
| `DidScid.WithSrcExactly` | src/did-scid.js:88-101 | a source goes in front of the fragment of a did:scid with neither query nor path; any other reference stays as it is |
| `DidScid.SameReferenceExactly` | src/did-scid.js:112-114 | two references are the same exactly when they are without their sources |
| `DidScid.IdentityDropsFragment` | src/did-scid.js:122-124 | the identity is that of what stands before the fragment |
| `DidScid.SameReferenceSameIdentity` | src/did-scid.js:112-124 | references that name the same thing have the same identity |
| `DidScid.StripTwice` | src/did-scid.js:63-66 | stripping is idempotent exactly when the fragment is not itself a `src` query |
| `DidScid.StripIsNotIdempotent` | src/did-scid.js:63-66 | a family of references that a second strip changes |
| `ScidWebvh.ConversionsInvert` | src/did-scid.js:138-189 | a did:webvh DID or DID URL survives the trip to did:scid and back exactly when its SCID is non-empty without `/?#`, its segments are non-empty without `/?&`, its host does not start with `%` and its fragment has no colon |
| `ScidWebvh.LocationRoundTrip` | src/did-scid.js:153-171 | host and path survive exactly with non-empty segments free of `/` and no leading `%` |
| `ScidWebvh.SchemeAndSlashIgnored` | src/did-scid.js:128-155 | an `https://` or `http://` in front of a source, or a slash behind it, changes nothing |
| `ScidWebvh.PortExactly` | src/did-scid.js:159-162 | a port is a decimal numeral of value up to 65535, perhaps with a plus sign and leading zeros |
| `ScidWebvh.PortIsEncoded` | src/did-scid.js:159-164 | a literal colon before such a port becomes `%3A`, anything else after it is refused |
| `ScidWebvh.PortIsEncodedBeforePath` | src/did-scid.js:151-171 | the same in front of a path, whose segments follow between colons |
| `ScidWebvh.ScidToWebvhDid` | src/did-scid.js:138-174 | the step-by-step conversion computes the specified one, ports and schemes included |
| `SourceBook.SizeIsBounded` | src/did-scid.js:254-313 | in every run the size never exceeds a whole-number capacity, and keys stay distinct |
| `SourceBook.VersionsNeverGoBack` | src/did-scid.js:254-313 | while a SCID is held its recorded version never decreases, and an equal number carries the equal id |
| `SourceBook.AcceptedInOrder` | src/did-scid.js:296-307 | of two accepted versions with the SCID held in between, the later has the higher number or is the same |
| `SourceBook.AcceptedExactly` | src/did-scid.js:296-303 | a version is accepted exactly when none is recorded for the SCID, its number is higher, or it is the recorded one |
| `SourceBook.AddKeepsVersion` | src/did-scid.js:279-291 | adding a source records it and keeps the recorded version |
| `SourceBook.OthersUntouched` | src/did-scid.js:261-307 | a call changes no other SCID, except that the oldest may be forgotten when the book is full |
| `SourceBook.AcceptRecords` | src/did-scid.js:304-306 | an accepted version is recorded with its source and becomes the newest entry |
| `SourceBook.ScidSourceBook.AcceptVersion` | src/did-scid.js:296-307 | refused exactly when behind the recorded version, without a change |
| `SourceBook.ScidSourceBook.AddSourceOf` | src/did-scid.js:279-291 | false and unchanged without a `src`, else the specified new state |
| `Bytes.Concatenate` | src/concat-kdf.js:165-175 | the buffer filled at a moving offset is the parts one after the other |
| `ConcatKdf.Uint32RoundTrip` | src/concat-kdf.js:133-143 | the four shifted and masked bytes read back as the number |
| `ConcatKdf.Uint32IsBigEndian` | src/concat-kdf.js:133-143 | they are the base-256 digits, most significant first |
| `ConcatKdf.Uint32Be` | src/concat-kdf.js:133-143 | those bytes, or a range error exactly outside 0 to 2^32 - 1 |
| `ConcatKdf.OtherInfoRoundTrip` | src/concat-kdf.js:100-115 | OtherInfo is read back completely, so it is injective in algorithm, apu, apv, bit length and optional prefixed tag |
| `ConcatKdf.LegacyRoundTrip` | src/concat-kdf.js:101-115 | the form with the raw tag reads back all fields, the tag as the rest |
| `ConcatKdf.WhenFormsCollide` | src/concat-kdf.js:104-115 | a prefixed and a raw context are the same bytes exactly when the fields agree and the raw tag is the other with its length |
| `ConcatKdf.FormsDiffer` | src/concat-kdf.js:104-108 | for one tag the two forms always differ |
| `ConcatKdf.KeyBlock` | src/concat-kdf.js:119-123 | block n of the stream is the hash of n + 1 in four bytes, then Z, then OtherInfo |
| `ConcatKdf.Reps` | src/concat-kdf.js:117-117 | the number of blocks is the least that covers the key |
| `ConcatKdf.KeyExactly` | src/concat-kdf.js:71-125 | which inputs have a key, and every byte of it by counter and place |
| `ConcatKdf.DeriveKey` | src/concat-kdf.js:71-125 | the leftmost bits / 8 bytes of the blocks, or the error the checks give |
| `ConcatKdf.EqualKeysCollide` | src/concat-kdf.js:119-124 | one 256-bit key from two secrets or contexts exhibits a hash collision |
| `A256CbcHs512.BitLengthIsExact` | src/a256cbc-hs512.js:135-145 | for every Number of bytes below 2^61, AL is exactly the 64-bit big-endian bit length, in spite of the conversion to doubles |
| `A256CbcHs512.Uint64BeBitLen` | src/a256cbc-hs512.js:135-145 | the loop fills the eight bytes of AL |
| `A256CbcHs512.MacInputRoundTrip` | src/a256cbc-hs512.js:119-123 | the MAC input determines aad, a 16-byte iv and ciphertext |
| `A256CbcHs512.ConstantTimeEqual` | src/a256cbc-hs512.js:163-170 | true exactly for equal contents |
| `A256CbcHs512.DecryptsEncrypted` | src/a256cbc-hs512.js:35-78 | decryption returns what was encrypted |
| `A256CbcHs512.SealsExactly` | src/a256cbc-hs512.js:35-58 | CBC under the second half of the key, and the first 32 bytes of the HMAC under the first half over aad, iv, ciphertext and AL |
| `A256CbcHs512.OpensExactly` | src/a256cbc-hs512.js:60-78 | what opens: exactly a key of 64, an iv of 16 and a tag of 32 bytes, that same tag, and good padding |
| `A256CbcHs512.TwoOpeningsCollide` | src/a256cbc-hs512.js:60-78 | one key and tag that open two envelopes exhibit a collision of the truncated MAC |
| `A256CbcHs512.Decrypt` | src/a256cbc-hs512.js:60-78 | sizes, then the tag, then the padding decide; the plaintext only after the tag |
| `Envelope.KeksAgree` | src/ecdh-1pu.js:61-126 | sender and recipient derive the same wrapping key |
| `Envelope.KekIsHash` | src/ecdh-1pu.js:61-126 | the wrapping key is the hash of counter 1, Ze, Zs, the algorithm, apu and apv behind their lengths, 256, and the tag, behind its length or not |
| `Pack.SenderKidKeepsIdentity` | src/pack.js:184-188 | the source a `skid` gains never changes whose key it is |
| `Pack.SenderKidExactly` | src/pack.js:184-188 | a bare key of the did:scid that `from` names gains the source of `from`, any other key id stays as it is |
| `Pack.PacksExactly` | src/pack.js:78-135 | there is an envelope exactly with ids, keys on one supported curve, the private key, the sizes and both shared secrets |
| `Pack.PackMessage` | src/pack.js:78-175 | encrypts before deriving from the tag, and leaves both key buffers zero |
| `Unpack.RecoverCek` | src/unpack.js:192-240 | the prefixed key first, then the raw one, with the error cases; one buffer for each key derived, all zero on every way out |
| `Unpack.UnpackMessage` | src/unpack.js:108-308 | the specified result or error, with one buffer for each key, all zero on every way out |
| `Authcrypt.CheckExactly` | src/unpack.js:108-183 | which envelopes pass the checks, in terms of the parsed envelope, its header and its first entry for the recipient, and which of their bytes go on |
| `Authcrypt.BoundSender` | src/unpack.js:277-308 | an authenticated message is handed on exactly when `from` is there, has no fragment, and has the identity of `skid`, which is a DID; else the sender mismatch |
| `Authcrypt.SentParts` | src/pack.js:104-166 | a sent envelope: header from `skid`, its bytes, the recipient digest and the ephemeral key; content sealed over that header; the content key wrapped under the recipient's own prefixed key for the resulting tag |
| `Authcrypt.UnpackUndoesPack` | src/unpack.js:108-308 | for every object message and matching keys unpack returns it with `skid`, the identity of the sender's key and no legacy flag exactly when `from` has no fragment and that same identity, a DID; else the mismatch of the two |
| `Authcrypt.FallbackDecides` | src/unpack.js:211-240 | a content key is recovered with the flag clear exactly when wrapped under the prefixed key, and with the flag set exactly when wrapped under the raw key and nothing is wrapped to those bytes under the prefixed one |
| `Authcrypt.KeksDiffer` | src/unpack.js:211-240 | the two keys of an envelope differ for every tag, or the hash collides |
| `Authcrypt.KekBindsContext` | src/ecdh-1pu.js:18-25 | equal keys mean the same sender id, recipient digest, tag and shared secrets, or the hash collides |
| `Authcrypt.SenderIsBound` | src/unpack.js:192-308 | every accepted authenticated envelope was wrapped under a key made with the given sender key and the returned `skid`, its content opened to the message under the unwrapped key, and `from` is a DID without fragment with the identity returned |
| `Authcrypt.AnonymousNamesNobody` | src/unpack.js:241-308 | an accepted anonymous envelope returns no sender and no legacy flag, and its content key came from the ECDH-ES key |

## Left out

- Sockets, `fetch`, DNS, timers as wall clock, close-code texts and the connection handshake: timeouts, closes and lost frames are nondeterministic steps.
- `unpackInbound`, `peekSkid`, `keyForSkid` in src/mediator-transport.js: whether a frame unpacks, fails for now or is refused is a choice of the step machine; the envelope itself is in `Unpack`.
- `onClose`, and listeners beyond when they are awaited: a listener that throws counts as settled, as in the source.
- A socket that closes while frame tasks run: their acks may fail to be sent, which is the unsent branch of the packing step.
- `Resolver`: NaN, infinite or fractional lifetimes; `options` other than `versionTime`, so which `netPolicy` a shared call ran under; handlers are outside.
- `Envelope.Jwk`: JWKs are raw key bytes with a curve; wrong base64url or lengths inside a JWK, and JSON members of the wrong type, are not modelled beyond being absent.
- `Unpack.UnpackMessage`: the anonymous branch runs over an abstract ECDH-ES key; src/ecdh-es.js and src/anoncrypt.js would repeat the authcrypt structure with less in it.
- `ConcatKdf.DeriveKey`: returns a copy where the source returns a view of its buffer, and types that JavaScript checks at run time are types of the model.
- `DidKey.Ed25519PublicKeyToX25519`: the primality of 2^255 - 19 is a hypothesis.
- Strings are sequences of Unicode scalar values: lone surrogates, which UTF-8 encoding replaces, are outside.
- `toScidDidDocument`, `resolveWith` and src/did-webvh.js: document rewriting and log verification.
- `assertSafeEndpoint`, `guardedFetch`, `normalizeAllowHosts` in src/net-guard.js: they rest on the WHATWG URL parser.
- src/did-peer.js, src/tsp-frame.js, src/key-agreement.js, src/vta-rest-auth.js, src/mediator-auth.js, src/vta-didcomm.js, src/forward.js: dispatch, HTTP and wiring that would only add easy members.
- Error wording and logging: errors are datatypes.
