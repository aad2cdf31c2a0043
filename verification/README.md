# A verified model of the chromatic IMAP server

The repository is an IMAP4rev1 server (RFC 3501). This project models the parts of it that decide
something on their own, and proves what they keep, what they promise and where they fall short. Sockets,
SQL and the full-text engine are reduced to values: a connection's packets are a sequence, the database is
a map from folders to listings, the engine's hits are a list of paths, threads are interleaved atomic steps.

| file | what it models |
|---|---|
| `Text.dfy` | digits, `atoi`, decimal printing, letter case |
| `Tokenizer.dfy` | `safe_tokenize_t` |
| `Vectors.dfy`, `Intersection.dfy` | sort, `unique`, `set_intersection`, `remove` in place; `atoms_intersection` |
| `MessageSets.dfy` | message-set expansion and `is_message_set`; the grammar of section 9 of RFC 3501 |
| `Blocks.dfy`, `Base64.dfy`, `SearchFilter.dfy` | the Base64 loops against section 4 of RFC 4648; the search path filter |
| `ListWildcards.dfy` | the LIST pattern compiler, with a reader and a semantics for the regular expressions it emits |
| `FetchItems.dfy` | the FETCH item list |
| `Session.dfy`, `SessionProofs.dfy` | the session state machine; whole-run theorems |
| `ThreadPool.dfy`, `ThreadPoolProofs.dfy` | reactor, workers and shutdown as a step system; invariants, termination |
| `MailboxCache.dfy`, `MailboxCommands.dfy`, `MailboxRuns.dfy` | the cached message map and its class; FETCH, COPY, STORE, EXPUNGE; agreement over runs |
| `Search.dfy` | the search resolver |
| `ServerRuns.dfy` | packets and cache together: the cache events of a session are those its packets reach |

Code that changes fields, vectors or buffers step by step is modelled by classes and methods with loops,
each proved against a specification function; the theorems are about those functions. Specification and
proof modules import the modules that carry the code.

Where the code differs from what RFC 3501 or its own naming suggests, the model follows the code and the
difference is a theorem, with the exact condition where there is one:

- `unique` without `erase` is harmless unless both inputs have the same largest value and leave a common nonzero value behind (`IntersectionExact`); one input without duplicates rules that out (`OneDupFreeIsEnough`), as at every call site.
- `*`, descending ranges, ranges that begin above the limit and `*` on the left are read differently from the RFC (`ReadAlikeExact`).
- A `?` in a LIST pattern becomes a quantifier (`FaithfulExactly`).
- A FETCH list of a single one-letter name is lost in trimming (`ParseRenderExact`); under UID bracketed names and sections come back as written only if they have no capitals (`FetchUnderUidExactly`).
- `stop` is safe to call exactly when every worker has entered its counter guard; it then returns in every run, and one that enters after the counter was read keeps it from returning (`SafeToStopExactly`, `StopReturnsInEveryRun`, `LateWorker`).
- A failed SELECT keeps the old selection (`FailedSelectKeeps`), one APPEND makes the connection deaf (`DeafAfterAppend`), and over a run there is one tagged response per command only if no packet deviates in one of the ways listed (`RepliesOfRun`, `OneReplyExactly`).
- The cached flags are not updated by STORE: a second STORE overrides the first (`SecondStoreWins`, `StoresComposeExactly`) and an EXPUNGE after a STORE is silent (`StoreThenExpungeIsSilent`, `ExpungeAgreesExactly`).
- STATUS replaces the selected folder's listing, harmlessly only if the two listings coincide (`StatusReplacesListing`, `SelectedSeenExactly`), FETCH, and NOOP when there is new mail, make an examined mailbox writable (`ReadOnlyExactly`, `RefreshClearsReadOnly`, `NoopMakesWritable`), a pending CLOSE clears a later selection (`PendingCloseExactly`, `PendingCloseClears`).

## Model

| member | source | states |
|---|---|---|
| Tokenizer.SafeTokenize | include/generic.h:63-92 | the loop ends on every text and appends exactly its tokens to the caller's collection, whose new size it returns |
| Tokenizer.TokensAreMaximalRuns | include/generic.h:69-89 | the tokens are exactly the maximal delimiter-free runs, left to right |
| Tokenizer.TokensSplit | include/generic.h:75-89 | cutting a text at any delimiter cuts its token list in two |
| Tokenizer.TokenizeJoin | include/generic.h:63-92 | tokenizing undoes joining, for any delimiters between and around the tokens |
| Text.AtoiPrint | chromatic_imap/chromatic_imap_message_manip.cpp:88 | reading a printed number gives the number back, whatever non-digit follows |
| Text.PrintInjective | chromatic_imap/chromatic_imap_mgr.cpp:506-510 | decimal keys read back as their number, so no two numbers share a key |
| Text.PrintDigit | chromatic_imap/chromatic_imap_mgr.cpp:506-507 | numbers are printed in the usual digits, most significant first |
| Text.AtoiSigned | chromatic_imap/chromatic_imap_message_manip.cpp:88 | a sign in front of a number counts, whatever non-digit follows |
| Text.SkipSpaces | chromatic_imap/chromatic_imap_message_manip.cpp:88 | white space in front of a number does not |
| Text.AtoiNothing | chromatic_imap/chromatic_imap_message_manip.cpp:88 | text that begins with no digit, space or sign reads as zero |
| Text.LowerExactly | chromatic_imap/chromatic_imap_mgr.cpp:3019-3039 | lower-casing puts for each capital the small letter in the same place of the alphabet and changes nothing else |
| Text.LowerKeepsExactly | chromatic_imap/chromatic_imap_mgr.cpp:3019-3039 | a text is its own lower case if and only if it has no capital |
| MessageSets.PopulateRange.Next | chromatic_imap/chromatic_imap.h:128-146 | the functor returns its value and counts up |
| MessageSets.GenerateN | chromatic_imap/chromatic_imap_message_manip.cpp:115-118 | appends the ascending run that starts at the left end, nothing for a count that is not positive |
| MessageSets.ProcessAtoms | chromatic_imap/chromatic_imap_message_manip.cpp:79-149 | appends the numbers of one atom: a number, an ascending range cut at the limit, or an open range |
| MessageSets.ExpandMessageSequence | chromatic_imap/chromatic_imap_message_manip.cpp:39-58 | the values of all comma-separated atoms, in order |
| MessageSets.ExpandDenotes | chromatic_imap/chromatic_imap_message_manip.cpp:39-149 | for every list of items of section 9 of RFC 3501, expanding its text gives, up to the limit, exactly the numbers some item touches under the code's rule |
| MessageSets.ReadAlikeExact | chromatic_imap/chromatic_imap_message_manip.cpp:104-147 | exactly when the code's reading of an item and the RFC's agree in a mailbox of that size |
| MessageSets.ExpandAgreesWithRfc | chromatic_imap/chromatic_imap_message_manip.cpp:39-149 | a set of items read alike expands to what the RFC has it denote |
| MessageSets.IsMessageSet | chromatic_imap/chromatic_imap_message_manip.cpp:220-338 | the scan accepts exactly the atoms of digits, `:` and `*` whose numbers are nonzero, ascending and, for an open range, within a nonzero limit |
| MessageSets.AcceptedAtomIsRun | chromatic_imap/chromatic_imap_message_manip.cpp:220-338 | an accepted atom expands to one contiguous ascending run of positive numbers, empty only for a closed range that starts above the limit |
| MessageSets.AcceptsItem | chromatic_imap/chromatic_imap_message_manip.cpp:220-338 | which items of the RFC's grammar are accepted |
| MessageSets.RefusedCharacter | chromatic_imap/chromatic_imap_message_manip.cpp:220-338 | one character other than a digit, `:` and `*` is enough to be refused |
| Vectors.SortSorts | chromatic_imap/chromatic_imap_message_manip.cpp:176-177 | the sorted vector is ordered and has the same contents |
| Vectors.Unique | chromatic_imap/chromatic_imap_message_manip.cpp:178-179 | compaction in place: the survivors in front, the old values left behind them |
| Vectors.DedupSorted | chromatic_imap/chromatic_imap_message_manip.cpp:178-179 | the survivors of a sorted vector are strictly ascending and are all its values |
| Vectors.SetIntersection | chromatic_imap/chromatic_imap_message_manip.cpp:182-187 | the merge writes only the front of the target, inside its bounds, and leaves the rest alone |
| Vectors.RemoveZeros | chromatic_imap/chromatic_imap_message_manip.cpp:189-190 | the nonzero values, in order, end up in front |
| Intersection.AtomsIntersection | chromatic_imap/chromatic_imap_message_manip.cpp:164-194 | the whole pipeline computes the merge of the two compacted vectors, tails included, without zeros |
| Intersection.IntersectionExact | chromatic_imap/chromatic_imap_message_manip.cpp:175-190 | the result is the strictly ascending list of common nonzero values if and only if the tails left by `unique` do not clash: same largest value, and a common nonzero value left behind |
| Intersection.MaxIsMaximum | chromatic_imap/chromatic_imap_message_manip.cpp:176-177 | the last sorted value, in which clashes are stated, is the largest |
| Intersection.ClashExactly | chromatic_imap/chromatic_imap_message_manip.cpp:175-190 | tails clash only if both inputs have duplicates and the same largest value, and then do if it is not zero |
| Intersection.OneDupFreeIsEnough | chromatic_imap/chromatic_imap_message_manip.cpp:164-194 | one input without duplicates is enough for the result to be right |
| Base64.SextetsRegroup | chromatic_imap/chromatic_imap_mgr.cpp:3631-3634 | the four 6-bit groups are the only ones with the same 24 bits as the three bytes |
| Base64.QuadMasks | chromatic_imap/chromatic_imap_mgr.cpp:3631-3634 | the encoder's masks and shifts are those groups |
| Base64.TripleMasks | chromatic_imap/chromatic_imap_mgr.cpp:3680-3682 | the decoder's masks and shifts as quotients and remainders |
| Base64.Base64Encode | chromatic_imap/chromatic_imap_mgr.cpp:3620-3662 | the loop over 3-byte buffers with its ragged tail computes the encoding of section 4 of RFC 4648 |
| Base64.EncodingLength | chromatic_imap/chromatic_imap_mgr.cpp:3620-3662 | the output has 4 * ceil(n / 3) characters |
| Base64.Base64Decode | chromatic_imap/chromatic_imap_mgr.cpp:3665-3705 | the loop decodes the leading run of alphabet characters |
| Base64.DecodingStops | chromatic_imap/chromatic_imap_mgr.cpp:3674 | decoding stops at the first character outside the alphabet, and what follows is not read |
| Base64.DecodeTail | chromatic_imap/chromatic_imap_mgr.cpp:3690-3702 | in the last partial group every filler place looks up as 255, and the bytes written are still those of the RFC |
| Base64.FillerNeverLeaks | chromatic_imap/chromatic_imap_mgr.cpp:3694-3701 | no byte written depends on what stands in the filler places |
| Base64.DecodeEncode | chromatic_imap/chromatic_imap_mgr.cpp:3620-3705 | decoding undoes encoding, for every byte string |
| Base64.EncodeDecode | chromatic_imap/chromatic_imap_mgr.cpp:3620-3705 | encoding undoes decoding exactly on canonical text, so the two are mutually inverse bijections |
| Base64.TestVectors | chromatic_imap/chromatic_imap_mgr.cpp:3620-3662 | the first vectors of section 10 of RFC 4648, and a group of the alphabet's last two characters |
| SearchFilter.BuildFilter | ImapServer/ImapImpl/OemoImapSearch.cpp:398-442 | the filter is the encoding of prefix and tag less the length of the encoded tag |
| SearchFilter.FilterNeverExcludes | ImapServer/ImapImpl/OemoImapSearch.cpp:439-442 | the filter is a prefix of the encoding of every URL of the user, in all three residues |
| SearchFilter.FilterIsSelective | ImapServer/ImapImpl/OemoImapSearch.cpp:439-442 | a URL's encoding begins with the filter exactly when the URL begins with the bytes the filter pins down |
| SearchFilter.PathPasses | ImapServer/ImapImpl/OemoImapSearch.cpp:470-472 | the engine's test, that the path contains the filter, passes every message of the user whatever directory and extension stand around the encoded name |
| SearchFilter.ContainedExactly | ImapServer/ImapImpl/OemoImapSearch.cpp:470-472 | at any place of any encoded name the filter stands exactly when the 6-bit groups of the pinned bytes stand there |
| SearchFilter.ContainedAtGroup | ImapServer/ImapImpl/OemoImapSearch.cpp:470-472 | at a group boundary that is exactly when the pinned bytes themselves stand there |
| ListWildcards.EnumMailboxList | chromatic_imap/chromatic_imap_mgr.cpp:250-284 | the loop emits, between the anchors, the translation of reference and pattern |
| ListWildcards.BodyConcat | chromatic_imap/chromatic_imap_mgr.cpp:250-284 | translation distributes over reference and pattern |
| ListWildcards.MatchConcat | chromatic_imap/chromatic_imap_mgr.cpp:250-251 | so does matching under section 6.3.8 of RFC 3501 |
| ListWildcards.MatchStar | chromatic_imap/chromatic_imap_mgr.cpp:267-270 | `*` matches every name |
| ListWildcards.MatchPercent | chromatic_imap/chromatic_imap_mgr.cpp:271-276 | `%` matches exactly the names without `/` |
| ListWildcards.MatchLiteral | chromatic_imap/chromatic_imap_mgr.cpp:277-282 | any other character matches itself only; with `MatchConcat` this settles every pattern |
| ListWildcards.ReadBack | chromatic_imap/chromatic_imap_mgr.cpp:264-284 | a reader of regular expressions gets from the emitted text exactly the pieces of the pattern |
| ListWildcards.FaithfulExactly | chromatic_imap/chromatic_imap_mgr.cpp:264-284 | the emitted expression is valid and matches exactly the names the pattern matches under the RFC, if and only if the pattern has no `?` |
| FetchItems.LTrim | chromatic_imap/chromatic_imap_mgr.cpp:3602-3617 | the loop drops leading characters of the set |
| FetchItems.RTrim | chromatic_imap/chromatic_imap_mgr.cpp:3575-3599 | the loop drops trailing characters of the set, and everything once one character is left |
| FetchItems.LeftTrimmedExactly | chromatic_imap/chromatic_imap_mgr.cpp:3602-3617 | what goes on the left is the longest front of trimmed characters |
| FetchItems.RightTrimmedExactly | chromatic_imap/chromatic_imap_mgr.cpp:3575-3599 | on the right the longest tail of them, and a remainder of length one |
| FetchItems.UnquotePair | chromatic_imap/chromatic_imap_mgr.cpp:3042-3064 | the outermost pair of quotes goes, whatever stands inside |
| FetchItems.UnquoteSingle | chromatic_imap/chromatic_imap_mgr.cpp:3042-3064 | a single quote goes on its own |
| FetchItems.ParseFetchRequestList | chromatic_imap/chromatic_imap_mgr.cpp:1568-1655 | the character loop computes the parse, with the write through an empty vector made explicit |
| FetchItems.ParseRender | chromatic_imap/chromatic_imap_mgr.cpp:1568-1655 | rendering any list of items, with or without parentheses, and parsing it gives the items back: plain names in lower case, bracketed names and sections as they were, an empty section as nil |
| FetchItems.RequestsExactly | chromatic_imap/chromatic_imap_mgr.cpp:1568-1655 | spelled out item by item: a plain name in small letters, a bracketed name and its section as they were, "nil" for an empty section |
| FetchItems.ReadQuotedSection | chromatic_imap/chromatic_imap_mgr.cpp:1622-1628 | a section with quotes comes back without the outermost pair |
| FetchItems.QuotedName | chromatic_imap/chromatic_imap_mgr.cpp:1603-1652 | a quoted name loses its quotes in front of a space or bracket, and keeps them at the end of the list |
| FetchItems.StrayBracket | chromatic_imap/chromatic_imap_mgr.cpp:1622-1637 | a name in front of a stray `]` is lost |
| FetchItems.NoNameYet | chromatic_imap/chromatic_imap_mgr.cpp:1625-1630 | a bracket closed before any name was read writes through the empty vector |
| FetchItems.ParseRenderExact | chromatic_imap/chromatic_imap_mgr.cpp:3575-3599 | that holds exactly when the list is not a single one-letter name |
| FetchItems.FetchAsks | chromatic_imap/chromatic_imap_mgr.cpp:2646-2681 | the same for what a FETCH without UID hands to the parser after its own removal of parentheses |
| FetchItems.FetchAsksQuoted | chromatic_imap/chromatic_imap_mgr.cpp:2653 | a list of plain names in quotes is read like the list itself |
| FetchItems.ParentheticalExactly | chromatic_imap/chromatic_imap_message_manip.cpp:197-216 | what is extracted stands between the first `(` and the last `)` |
| FetchItems.FetchAsksUnderUid | chromatic_imap/chromatic_imap_handler.cpp:1702-1714 | under UID the whole list is lower-cased first, so names and sections alike come back in lower case |
| FetchItems.FetchUnderUidExactly | chromatic_imap/chromatic_imap_handler.cpp:1702-1714 | under UID the items come back as written if and only if the list is not a single one-letter name and no bracketed name or section has a capital |
| Session.Handler.OnLogin | chromatic_imap/chromatic_imap_handler.cpp:1276-1304 | refused when authenticated; success adds the state |
| Session.Handler.OnSelect | chromatic_imap/chromatic_imap_handler.cpp:1572-1609 | needs authentication; only success adds the selection |
| Session.Handler.OnClose | chromatic_imap/chromatic_imap_handler.cpp:1004-1043 | needs both states; drops the selection unless the manager throws |
| Session.Handler.OnMailbox | chromatic_imap/chromatic_imap_handler.cpp:1329-1370 | the common shape of the guarded commands: guard, one call, one reply, which FETCH and SEARCH leave to UID |
| Session.Handler.OnUid | chromatic_imap/chromatic_imap_handler.cpp:1693-1726 | dispatches FETCH and SEARCH only, and replies OK whatever became of them |
| Session.Handler.Process | chromatic_imap/chromatic_imap_handler.cpp:263-381 | one packet changes the state, calls the manager and replies as the specification says |
| SessionProofs.ReachesManager | chromatic_imap/chromatic_imap_handler.cpp:904-929 | in every run a packet reaches the manager exactly when no LOGOUT, APPEND or interrupt came before and the history allows it: for FETCH, STORE, COPY, EXPUNGE and CLOSE a LOGIN succeeded, then a SELECT or EXAMINE, and no CLOSE has come back since |
| SessionProofs.SelectedImpliesAuthenticated | chromatic_imap/chromatic_imap_handler.cpp:1572-1609 | a selection implies authentication, in every run |
| SessionProofs.AuthenticatedStays | chromatic_imap/chromatic_imap_handler.cpp:1276-1304 | being authenticated never reverts |
| SessionProofs.StateIsHistory | chromatic_imap/chromatic_imap_handler.cpp:904-929 | in every run the states are what the packets received so far say: open, logged in, selected |
| SessionProofs.SelectionLasts | chromatic_imap/chromatic_imap_handler.cpp:1004-1043 | no continuation without a succeeding SELECT or EXAMINE or a CLOSE that comes back changes the selection |
| SessionProofs.FailedSelectKeeps | chromatic_imap/chromatic_imap_handler.cpp:1589-1605 | any number of SELECTs and EXAMINEs that fail leave the whole state as it was |
| SessionProofs.DeafAfterAppend | chromatic_imap/chromatic_imap_handler.cpp:313-330 | after one APPEND no later packet reaches the manager or is answered, and LOGOUT does not end the connection |
| Session.Handler.Serve | chromatic_imap/chromatic_imap_handler.cpp:263-381 | serving any packets until the connection closes leaves the state, the calls and the responses of the run |
| SessionProofs.RepliesOfRun | chromatic_imap/chromatic_imap_handler.cpp:332-369 | in every run the number of tagged responses sent is the sum of those due by the history of logins, selections and disturbances |
| SessionProofs.OneReplyExactly | chromatic_imap/chromatic_imap_handler.cpp:332-369 | at every moment there was one tagged response per packet served, if and only if no packet of the run deviates: gets none, or gets two |
| SessionProofs.CommandAnswered | chromatic_imap/chromatic_imap_handler.cpp:853-897 | for every history and command which response is sent: OK if and only if the history allows it and the operation returned true, NO if allowed and not true, the packet error if not allowed; NOOP, CAPABILITY, APPEND, CHECK and STARTTLS each on their own |
| SessionProofs.UidAnswered | chromatic_imap/chromatic_imap_handler.cpp:1693-1726 | the responses to a UID command, in order |
| SessionProofs.OthersAnswered | chromatic_imap/chromatic_imap_handler.cpp:332-369 | packets that are no command, and packets after a LOGOUT, APPEND or interrupt |
| SessionProofs.FailedLogin | chromatic_imap/chromatic_imap_handler.cpp:1291-1301 | a failed LOGIN is answered NO and leaves the connection unauthenticated |
| SessionProofs.EndedExactly | chromatic_imap/chromatic_imap_handler.cpp:295-365 | a connection has ended exactly when an interrupt came or a LOGOUT was dispatched, and is diverted exactly when an APPEND was |
| ThreadPool.Pool.Enqueue | chromatic_imap/chromatic_thread_pool.cpp:49-72 | puts one job at the end of the queue |
| ThreadPool.Pool.AdvanceSvc | chromatic_imap/chromatic_thread_pool.cpp:75-122 | the atomic steps of a worker: guard, getq, process, register or close, release, return |
| ThreadPool.Pool.AdvanceStop | chromatic_imap/chromatic_thread_pool.cpp:26-46 | the atomic steps of shutdown: read the counter, enqueue that many sentinels, poll |
| ThreadPool.Pool.HandleInputOnReactor | chromatic_imap/chromatic_imap_handler.cpp:173-182 | the reactor's two steps: remove the handler, enqueue it |
| ThreadPool.Pool.Perform | chromatic_imap/chromatic_thread_pool.cpp:26-122 | any interleaving performed on the shared fields is a run of the step system |
| ThreadPoolProofs.OwnedStep | chromatic_imap/chromatic_imap_handler.cpp:173-197 | every step keeps each accepted handler in exactly one of registered, in the reactor's hand, queued, held by one worker, destroyed |
| ThreadPoolProofs.OneWorkerEach | chromatic_imap/chromatic_thread_pool.cpp:91-114 | in every interleaving no two workers have the same handler, and a handler in a worker is nowhere else |
| ThreadPoolProofs.DestroyedUntouched | chromatic_imap/chromatic_imap_handler.cpp:201-214 | no step touches a destroyed handler |
| ThreadPoolProofs.DestroyedExactly | chromatic_imap/chromatic_thread_pool.cpp:108-113 | over every run a handler is destroyed exactly when some `process` gave its connection up and that worker has taken its next step since |
| ThreadPoolProofs.RegisteredExactly | chromatic_imap/chromatic_imap_handler.cpp:178-194 | over every run a handler is registered exactly when it was accepted or kept by a `process` and the reactor has not removed it since |
| ThreadPoolProofs.KeptIsRegistered | chromatic_imap/chromatic_imap_handler.cpp:190-194 | in a run that keeps every connection nothing is destroyed, and a handler just processed is registered |
| ThreadPoolProofs.WorkersStay | chromatic_imap/chromatic_thread_pool.cpp:20-23 | the pool has the number of workers it was started with, for ever |
| ThreadPoolProofs.BalancedStep | chromatic_imap/chromatic_imap.h:376-391 | the counter is the number of workers inside the guard, and after shutdown has read it, it equals sentinels owed and queued plus workers leaving plus late workers |
| ThreadPoolProofs.PoolStepsBounded | chromatic_imap/chromatic_thread_pool.cpp:26-122 | in every run the steps of workers and shutdown are bounded by the initial rank and what the reactor brings |
| ThreadPoolProofs.NeverStuck | chromatic_imap/chromatic_thread_pool.cpp:32-42 | without a late worker some step is possible until shutdown has returned |
| ThreadPoolProofs.StopReturnsExactly | chromatic_imap/chromatic_thread_pool.cpp:26-46 | from a reachable state in shutdown some run reaches its return if and only if no worker entered after the counter was read |
| ThreadPoolProofs.SafeToStopExactly | chromatic_imap/chromatic_thread_pool.cpp:26-46 | before the call: whatever the interleaving, shutdown can still return, if and only if no worker is yet to enter the counter guard |
| ThreadPoolProofs.StopReturnsInEveryRun | chromatic_imap/chromatic_thread_pool.cpp:26-46 | and then every run after which no worker and no step of shutdown can go on has returned, within a bounded number of their steps |
| ThreadPoolProofs.LateWorker | chromatic_imap/chromatic_thread_pool.cpp:29-32 | concrete runs in which a late worker keeps shutdown polling, or is left behind |
| ThreadPoolProofs.AfterReturn | chromatic_imap/chromatic_thread_pool.cpp:89-121 | at return everything enqueued ahead of a sentinel has been taken, in order and once each, and no worker holds a handler |
| ThreadPoolProofs.StrandedForEver | chromatic_imap/chromatic_thread_pool.cpp:37-45 | handlers queued behind the sentinels are never taken afterwards |
| MailboxCache.NumberedKey | chromatic_imap/chromatic_imap_mgr.cpp:506-513 | every key of the map is the decimal text of a number from 1 to N, with that row under it |
| MailboxCache.Manager.FillMessageListByDb | chromatic_imap/chromatic_imap_mgr.cpp:428-513 | the loop leaves the numbering of the listing, and as largest UID the last row's |
| MailboxCache.Manager.UpdateMailboxInfoByDb | chromatic_imap/chromatic_imap_mgr.cpp:538-592 | refill, clear, and set name and read-only only if the flag query returns a row |
| MailboxCache.Manager.MessageNums | chromatic_imap/chromatic_imap_mgr.cpp:2819-2825 | in whatever order the map is read, the numbers or UIDs come out once each and all of them |
| MailboxCache.Manager.RequestSet | chromatic_imap/chromatic_imap_mgr.cpp:2816-2828 | the request vector is the ascending list of wanted ids; this call site meets the condition under which `unique` without `erase` is harmless |
| MailboxCache.Manager.StoreFlags | chromatic_imap/chromatic_imap_mgr.cpp:3098-3160 | writes the union, difference or replacement computed from the cached flags to the database and leaves the cache alone |
| MailboxCache.Manager.OnStore | chromatic_imap/chromatic_imap_mgr.cpp:2777-2839 | refused when read-only, otherwise one update per requested message |
| MailboxCache.Manager.OnFetch | chromatic_imap/chromatic_imap_mgr.cpp:2660-2678 | refreshes first, with read-only off, then expands the set |
| MailboxCache.Manager.OnNoop | chromatic_imap/chromatic_imap_mgr.cpp:2216-2263 | on news refreshes as FETCH does, read-only off, and reports the number of messages; otherwise changes nothing |
| MailboxCache.Manager.OnCopy | chromatic_imap/chromatic_imap_mgr.cpp:2553-2594 | the UIDs of the requested messages |
| MailboxCache.Manager.OnExpunge | chromatic_imap/chromatic_imap_mgr.cpp:2853-2913 | reports the lowered numbers of the cached deleted messages and refills, or clears silently after CLOSE |
| MailboxCache.Manager.OnStatus | chromatic_imap/chromatic_imap_mgr.cpp:2750-2751 | refills the shared map and leaves the selected folder's information |
| MailboxCache.ExpungedExactly | chromatic_imap/chromatic_imap_mgr.cpp:2857-2864 | the folder loses exactly its messages marked deleted, every other folder loses nothing |
| MailboxCache.Manager.EditFlags | chromatic_imap/chromatic_imap_mgr.cpp:3138-3151 | the loop over the named flags, flag by flag |
| MailboxCommands.NumberRequests | chromatic_imap/chromatic_imap_mgr.cpp:2553-2572 | by number: the strictly ascending list of exactly those m in 1..N that some item touches |
| MailboxCommands.NumberRequestsRfc | chromatic_imap/chromatic_imap_mgr.cpp:2665-2678 | and the RFC's list when every item is read alike |
| MailboxCommands.UidRequests | chromatic_imap/chromatic_imap_mgr.cpp:2665-2678 | by UID, when the last row has the largest: exactly the UIDs some item touches |
| MailboxCommands.AscendingEndsLargest | ImapServer/ImapImpl/oemo.sql:445-463 | rows in ascending order of UID, as the query returns them, end in the largest |
| MailboxCommands.ReadAlikeByUidExact | chromatic_imap/chromatic_imap_message_manip.cpp:104-147 | exactly when the code's reading of an item and the RFC's agree on the UIDs in use |
| MailboxCommands.UidRequestsRfc | chromatic_imap/chromatic_imap_mgr.cpp:2665-2678 | a set of items read alike by UID requests the RFC's UIDs |
| MailboxCommands.AllByUidExactly | chromatic_imap/chromatic_imap_mgr.cpp:464-472 | `1:*` by UID asks for every message if and only if the last row has the largest UID |
| MailboxCommands.Fetch | chromatic_imap/chromatic_imap_mgr.cpp:2660-2678 | FETCH of a rendered set: by number exactly the m in 1..N that some item touches, by UID exactly the UIDs, over the listing just read |
| MailboxCommands.Copy | chromatic_imap/chromatic_imap_mgr.cpp:2553-2594 | COPY of a rendered set: the UIDs of exactly the rows asked for, in their order |
| MailboxCommands.StoreEffect | chromatic_imap/chromatic_imap_mgr.cpp:2830-2835 | from an agreeing cache, one STORE leaves the union, difference or replacement for each requested row and every other row of the folder unchanged, by number and by UID; in every folder exactly the rows with a requested message's URL follow |
| MailboxCommands.StoreFlagByFlag | chromatic_imap/chromatic_imap_mgr.cpp:3138-3151 | the table after a STORE, flag by flag: adding leaves what was on or is named, removing what was on and is not named, replacing what is named |
| MailboxCommands.Store | chromatic_imap/chromatic_imap_mgr.cpp:2777-2839 | the same for a rendered set, by number and by UID, and the refusal when read-only |
| MailboxCommands.SecondStoreWins | chromatic_imap/chromatic_imap_mgr.cpp:3113-3154 | of two STOREs without a refresh only the second counts on a message both request |
| MailboxCommands.StoresComposeExactly | chromatic_imap/chromatic_imap_mgr.cpp:3138-3154 | that is as if one followed the other exactly when the second replaces, or names every flag the first changed |
| MailboxCommands.ExpungeReplay | chromatic_imap/chromatic_imap_mgr.cpp:2867-2901 | replaying the responses keeps every index in range and ends with the messages not deleted, in order (section 7.4.1 of RFC 3501) |
| MailboxCommands.ExpungeAgreesExactly | chromatic_imap/chromatic_imap_mgr.cpp:2860-2905 | the client's list equals the refilled listing if and only if cache and table agree on the deleted messages |
| MailboxCommands.StoreThenExpungeIsSilent | chromatic_imap/chromatic_imap_mgr.cpp:2867-2905 | a message marked by STORE and expunged with no refresh between goes without a response |
| MailboxRuns.MapIsLastListing | chromatic_imap/chromatic_imap_mgr.cpp:428-513 | in every run the map numbers the listing that the last refilling command read: SELECT, EXAMINE, STATUS, FETCH, EXPUNGE, or NOOP with news |
| MailboxRuns.FetchSeesCurrentListing | chromatic_imap/chromatic_imap_mgr.cpp:2660-2666 | while a folder stays selected FETCH expands over the current listing of that folder |
| MailboxRuns.OthersSeeLastRefresh | chromatic_imap/chromatic_imap_mgr.cpp:2553-2828 | STORE, COPY and EXPUNGE see it as of the last refresh, without a STATUS since |
| MailboxRuns.StatusReplacesListing | chromatic_imap/chromatic_imap_mgr.cpp:611-628 | when the last refill was a STATUS they see the listing of the folder it asked about, under the selected folder's name |
| MailboxRuns.SelectedSeenExactly | chromatic_imap/chromatic_imap_mgr.cpp:611-628 | STORE, COPY and EXPUNGE see the selected folder's listing as of the last refill if and only if that was no STATUS or the folder it asked about had the same listing |
| MailboxRuns.ReadOnlyExactly | chromatic_imap/chromatic_imap_mgr.cpp:538-592 | read-only exactly when the most recent refresh of the mailbox information was EXAMINE's |
| MailboxRuns.RefreshClearsReadOnly | chromatic_imap/chromatic_imap_mgr.cpp:2216-2244 | after a refresh by FETCH, EXPUNGE or a NOOP with news the mailbox is writable until the next EXAMINE |
| MailboxRuns.NoopMakesWritable | chromatic_imap/chromatic_imap_mgr.cpp:2236-2241 | EXAMINE, then NOOP with new mail: read-only before, writable after |
| MailboxRuns.PendingCloseExactly | chromatic_imap/chromatic_imap_mgr.cpp:2846-2851 | the mark left by CLOSE is set exactly when a CLOSE came after the last EXPUNGE |
| MailboxRuns.PendingCloseClears | chromatic_imap/chromatic_imap_mgr.cpp:2906-2911 | with it EXPUNGE deletes in the folder selected now and clears map and name |
| MailboxRuns.Perform | chromatic_imap/chromatic_imap_mgr.cpp:428-628 | one event of a run, performed by the manager's methods |
| MailboxRuns.PerformAll | chromatic_imap/chromatic_imap_mgr.cpp:428-628 | a whole run on a fresh manager leaves the cache and the database of the run |
| ServerRuns.NameIsLastSelected | chromatic_imap/chromatic_imap_handler.cpp:1572-1609 | in every run of packets and of changes by others the manager works on the folder of the last SELECT or EXAMINE that succeeded by the packet history, while flag rows come and no EXPUNGE meets an earlier CLOSE |
| ServerRuns.FetchSeesLastSelected | chromatic_imap/chromatic_imap_handler.cpp:1329-1370 | a FETCH packet that reaches the manager has such a folder, and under the same condition expands over its current listing |
| Search.Resolver.MessageNumbersToUids | chromatic_imap/chromatic_imap_search.cpp:299-317 | the UIDs of the numbers that exist, through the decimal keys |
| Search.Resolver.UidsToMessageNumbers | chromatic_imap/chromatic_imap_search.cpp:267-296 | the numbers of the UIDs that exist, through the map built from the cache |
| Search.NumbersBack | chromatic_imap/chromatic_imap_search.cpp:267-317 | from numbers to UIDs and back is the identity on valid numbers |
| Search.UidsBack | chromatic_imap/chromatic_imap_search.cpp:267-317 | from UIDs to numbers and back is the identity on valid UIDs |
| Search.Resolver.Hits | ImapServer/ImapImpl/OemoImapSearch.cpp:482-505 | the UIDs of the result documents that belong to cached messages |
| Search.BaseNameExactly | ImapServer/ImapImpl/OemoImapSearch.cpp:491-496 | the document name is what follows the last backslash |
| Search.HitIsFile | ImapServer/ImapImpl/OemoImapSearch.cpp:407-411 | a message is a hit exactly when one result path is a directory, a backslash, its URL and .xml |
| Search.Resolver.Resolve | ImapServer/ImapImpl/OemoImapSearch.cpp:507-514 | intersects the set, as UIDs, with the hits |
| Search.Resolver.OnSearch | ImapServer/ImapImpl/OemoImapMgr.cpp:2518-2537 | expands the set, resolves it and translates back by number: the result the next rows speak of |
| Search.AcceptedDupFree | ImapServer/ImapImpl/OemoImapMgr.cpp:2503-2511 | an accepted message set expands without duplicates, so duplicate hits do no harm |
| Search.SearchByNumber | ImapServer/ImapImpl/OemoImapMgr.cpp:2529-2537 | SEARCH by number returns exactly the numbers in the message set whose message is a hit, each once, ascending when the rows ascend by UID |
| Search.SearchByUid | ImapServer/ImapImpl/OemoImapMgr.cpp:2529-2537 | SEARCH by UID returns, ascending, exactly the UIDs in the set that are hits |

## Left out

- Sockets, the reactor's internals, the idle timer and the byte buffering in `process`: a connection is the sequence of its packets, the reactor its remove and register steps.
- The query behind NOOP (its count of new messages, one row, is a parameter) and SQL, transactions and rollback: the database is a map from folders to listings with distinct UIDs and URLs per folder; every query succeeds.
- The copying done by COPY and APPEND in the database, and deliveries: any change of the database by others is one event.
- The stored procedures behind EXPUNGE and STORE: `expunge_messages_by_idx` in ImapServer/ImapImpl/oemo.sql takes a list of UIDs, while the code passes a folder name, so that procedure would delete nothing; the model has the folder's messages marked deleted in the table go instead. `update_message_flags` there changes existing flag rows only; the model takes every message to have one.
- Removing message files in EXPUNGE: taken to succeed.
- COPY under UID: the handler never dispatches it; `OnCopy` models its branch, no theorem is about it.
- Flag names as text: STORE starts from a set of flags, since the code lower-cases the text before matching capitalised names.
- The text of FETCH, STATUS and SELECT responses, MIME, envelope and body structure.
- The reading of search criteria other than a message set in front of a text key; the full-text engine is the list of paths it returns.
- FaithfulExactly: patterns with `[ ] { } | ^ \` or NUL are outside it, as they mean more to the regular expression library than its grammar here has.
- Text behind a NUL, where the code goes through C strings (the tokenizer, LIST names and patterns).
- The splitting of FETCH, STORE and COPY parameters into set and rest, and its parse errors: the methods start from the message set.
- Integer overflow in `atoi` and locale-dependent printing.
- The mode with one thread per connection, and an `enqueue` that fails because the queue was closed.
- Sort and `lexical_cast` of the libraries are specification functions, not loops.
- The older copies of the same code under `ImapServer`, except the search resolver, which is live there.
