# FTL in-memory statistics core, modelled in Dafny

This project models `datastructure.c` of the FTL DNS statistics engine. That file holds the engine's in-memory bookkeeping:

- the over-time table `overTime`. It is an ascending, gap-free grid of 600-second buckets. `findOverTimeID` searches it and back-fills it. `gettimestamp` computes the aligned stamp of a query time.
- three append-only interning tables, `domains`, `clients` and `forwarded`. `findDomainID`, `findClientID` and `findForwardID` map a string to a stable, first-seen-order index. They also keep the per-table byte counters `memory.domainnames`, `memory.clientips` and `memory.forwardedips`.
- the wildcard classifier `detectStatus`. It answers 4 (blocked by a wildcard) when some pattern equals the domain, ignoring ASCII case, or equals a suffix reached by stripping leading labels. Otherwise it answers 3.
- `strtolower`, which lower-cases a C string in place.

Files and modules:

- `common.dfy` (`Common`): `Option` (None stands for NULL), the sentinel `MAGICBYTE`, and `Find`, the first-occurrence scan that every `for` loop of the file performs.
- `cstring.dfy` (`CString`): ASCII `tolower`, `strtolower` on a NUL-terminated `array<char>`, and `CaseEq`, the model of `strcasecmp(a, b) == 0`.
- `overtime.dfy` (`OverTime`): the alignment formula, buckets, the back-fill as a specification function, and the class `OverTimeTable`.
- `tables.dfy` (`Tables`): the records, the key-sequence view shared by the three tables, and the classes `DomainTable`, `ClientTable` and `ForwardTable`.
- `wildcard.dfy` (`Wildcard`): the `sscanf("%*[^.].%s")` step as `StripLabel` (with `FirstDot`, where `%*[^.]` stops), the suffix chain `Suffixes`, and the methods `HitsPattern` (the body of the pattern loop) and `DetectStatus`.

Each global array together with its `counters.X` is a class whose `seq` field holds exactly the records in use. A `find*ID` call is a method that modifies that object. It scans with a `for` loop, as the C code does, and states the whole new state in its postcondition. Each class has a `Valid()` invariant that every method keeps:

- over-time: consecutive stamps differ by exactly 600, and every bucket carries `MAGICBYTE`;
- interning tables: keys are pairwise distinct, the byte counter equals the sum of `strlen + 1` over the keys, every record carries `MAGICBYTE`, and the counts stay in range.

Two behaviours of the code follow from its exact text:

- The forward table's `count` flag decides both whether a fresh record starts at 1 and whether a hit increments the counter (datastructure.c:93).
- `t - t%600 + 300` uses C's truncating `%`. For `t >= 0` the stamp is the midpoint of t's 600-second cell. For `t < 0` not a multiple of 600 the stamp is one cell later than that midpoint; at a negative multiple of 600 it is `t + 300`. `AlignTimestamp` and `AlignNegative` state these cases.

The plain definitions (`ToLower`, `LowerStr`, `CaseEq`, `Backfill`, `Interned`, `NameBytes`, `Suffixes`, `PatternHits`, `Matches`) have no contract of their own beyond sizes; what they mean is stated by the lemmas listed with them in the table below.

## Model

| member | source | states |
|---|---|---|
| `CString.StrToLower` | datastructure.c:14-18 | every character before the terminating NUL becomes `tolower` of the old one; the NUL and everything after it are unchanged |
| `CString.LowerStrAt` | datastructure.c:13-18 | the lowered string keeps the length, and position k holds `tolower` of the old character k |
| `CString.LowerStrKeepsNonUpper` | datastructure.c:13-18 | a string without upper-case letters is left unchanged |
| `CString.LowerStrHasNoUpper` | datastructure.c:13-18 | after lowering, no upper-case letter remains |
| `CString.LowerStrIdempotent` | datastructure.c:13-18 | lowering twice equals lowering once |
| `CString.CaseEqPointwise` | datastructure.c:227 | `strcasecmp(a, b) == 0`, defined as equality after lower-casing, holds exactly when the strings have the same length and `tolower` agrees at every position |
| `CString.CLength` | datastructure.c:17 | the loop stops at the first NUL: it lies within the buffer and no NUL comes before it |
| `Common.Find` | datastructure.c:35-40 | the scan answers -1 exactly when the value is absent; otherwise it answers an index holding the value with no earlier occurrence |
| `OverTime.CRem` | datastructure.c:27 | C's `%` by a positive divisor: magnitude below the divisor, same sign as the dividend (zero allowed), and `a - r` is the quotient truncated toward zero times the divisor |
| `OverTime.AlignTimestamp` | datastructure.c:25-27 | the stamp is congruent to 300 mod 600; for t >= 0 it is the midpoint `t/600*600+300` of t's cell, with stamp-300 <= t < stamp+300; for t < 0, t lies in (stamp−900, stamp−300] |
| `OverTime.AlignNegative` | datastructure.c:27 | for t < 0 the stamp is t+300 when t is a multiple of 600, and otherwise one cell past the floor-cell midpoint, `⌊t/600⌋·600+900` |
| `OverTime.AlignSameCell` | datastructure.c:25-27 | two non-negative times get the same stamp exactly when they lie in the same 600-second cell |
| `OverTime.OnGridStamps` | datastructure.c:42-77 | in a table that keeps the 600-second step, bucket k is stamped first + 600·k, so stamps ascend strictly and are unique |
| `OverTime.OnGridAligned` | datastructure.c:42-77 | if the first stamp is aligned to 300 mod 600, every stamp of the table is |
| `OverTime.StampIndex` | datastructure.c:35-40 | the lookup answers the first bucket stamped `ts`, or -1 when no bucket has that stamp |
| `OverTime.BackfillShape` | datastructure.c:53-77 | the back-fill loop appends ⌊(ts−next)/600⌋+1 empty buckets (none if ts < next); bucket k has stamp next+600·k, magic set, zero counters and NULL client data |
| `OverTime.BackfillReaches` | datastructure.c:53-77 | a non-empty back-fill ends at the greatest grid stamp not after `ts` |
| `OverTime.BackfillOnGrid` | datastructure.c:42-77 | appending the back-fill that starts at last+600, or at `ts` on an empty table, keeps the 600-second step invariant |
| `OverTime.TooOldCreatesNothing` | datastructure.c:53 | an unseen stamp older than last+600 back-fills nothing |
| `OverTime.OverTimeTable.FindOverTimeId` | datastructure.c:30-79 | on a hit it returns the index and leaves the table unchanged; otherwise it appends the back-fill from last+600 (or from `ts` on an empty table) up to `ts`, and returns the last appended index, or -1 when nothing was appended; the step invariant and the magic bytes are kept |
| `OverTime.GapFillScenario` | datastructure.c:42-78 | starting from an empty table, stamps A and then A+1800 answer 0 and 3; the table holds four buckets 600 s apart, and the three later ones are empty |
| `OverTime.OutOfOrderScenario` | datastructure.c:30-79 | stamps A and then the older, unseen A−600 answer 0 and -1; only one bucket exists |
| `Tables.InternedFacts` | datastructure.c:138-166 | find-or-create keeps keys distinct and makes the key present; a new key gets ID = old table size; every existing key keeps its ID |
| `Tables.InternedIdempotent` | datastructure.c:123-136 | finding the same key a second time changes no keys and returns the same ID |
| `Tables.InternedFirstSeenOrder` | datastructure.c:138-166 | two distinct new keys get IDs n and n+1, in the order they were first seen |
| `Tables.NameBytesAppend` | datastructure.c:154 | storing a new key adds strlen+1 bytes to the byte counter |
| `Tables.NameBytesGrowth` | datastructure.c:154 | after new keys are appended, the byte counter has grown by the sum of their lengths plus one each |
| `Tables.PrefilterFindAgrees` | datastructure.c:126-131 | the scan that skips a record on a first-character mismatch before calling `strcmp` gives the same answer as a plain `strcmp` scan; the loops of `FindDomainId` and `FindClientId` run that test themselves (through `FirstCharDiffers`) and still ensure `id == Find(Keys(), key)` |
| `Tables.DomainsHit` | datastructure.c:124-136 | counting a hit keeps the keys, distinct keys, the byte counter, the magic bytes and positive counts |
| `Tables.DomainsMiss` | datastructure.c:138-166 | appending the fresh record for an absent domain adds exactly that key, keeps keys distinct and magic bytes set, and the byte counter grows by strlen+1 |
| `Tables.ClientsHit` | datastructure.c:173-185 | counting a hit keeps the keys and the client invariant |
| `Tables.ClientsMiss` | datastructure.c:186-205 | appending the fresh record for an absent client adds exactly that key and keeps the invariant, with the byte counter grown by strlen+1 |
| `Tables.ForwardsHit` | datastructure.c:87-96 | counting a hit keeps the keys and the forward invariant |
| `Tables.ForwardsMiss` | datastructure.c:97-117 | appending the fresh record for an absent destination adds exactly that key and keeps the invariant, with the byte counter grown by strlen+1 |
| `Tables.DomainTable.FindDomainId` | datastructure.c:120-167 | on a hit it returns the index and increments only that record's count; on a miss it returns the old size and appends the fresh domain record (count 1, blockedcount 0, wildcard false, DNSSEC unspecified, IPv4/IPv6 NULL, both reply slots unknown, magic set), and the byte counter grows by strlen+1; keys stay distinct |
| `Tables.ClientTable.FindClientId` | datastructure.c:169-206 | on a hit it returns the index and increments only that record's count; on a miss it appends a client with count 1 and magic set at the old size, and the byte counter grows by strlen+1; keys stay distinct |
| `Tables.ForwardTable.FindForwardId` | datastructure.c:81-118 | on a hit it returns the index and increments the count only if `count` is set, changing nothing else; on a miss it appends a record with count `count ? 1 : 0`, failed 0 and magic set, returns the old size, and the byte counter grows by strlen+1 |
| `Tables.DomainTwiceScenario` | datastructure.c:120-167 | the same domain looked up twice on an empty table gets ID 0 both times and ends with count 2 |
| `Tables.ForwardCountScenario` | datastructure.c:81-118 | a forward destination looked up without counting and then with counting gets ID 0 both times; its count is 0 and then 1 |
| `Wildcard.StripLabel` | datastructure.c:252 | a successful `sscanf` step yields a non-empty string strictly shorter than its input |
| `Wildcard.StripLabelSuffix` | datastructure.c:252 | the string a successful step yields is a proper suffix of its input |
| `Wildcard.FirstDot` | datastructure.c:252 | the `%*[^.]` conversion stops at a dot or at the end of the string |
| `Wildcard.FirstDotIsFirst` | datastructure.c:252 | no dot comes before the place where `%*[^.]` stops |
| `Wildcard.StripLabelSpec` | datastructure.c:252 | the step succeeds with `rest` exactly when the string is a non-empty dot-free label, a dot, and a non-empty `rest` (both directions) |
| `Wildcard.Suffixes` | datastructure.c:250-272 | the chain of compared strings starts with the domain itself |
| `Wildcard.SuffixesStep` | datastructure.c:252-271 | a string of the chain strips exactly when it is not the last, and then to the next one, so the loop visits the chain in order and stops at its end |
| `Wildcard.SuffixesShrink` | datastructure.c:265-271 | the j-th string is a suffix of the domain and at least j characters shorter, so the stripping loop terminates |
| `Wildcard.SuffixesAfterHead` | datastructure.c:252 | for a domain `label.rest`, the second compared string is `rest`; if `rest` has no dot it is also the last |
| `Wildcard.SuffixesOfHostName` | datastructure.c:250-272 | for a domain with no empty labels, the compared strings are exactly the domain and the suffixes that start right after one of its dots (both directions) |
| `Wildcard.HitsPattern` | datastructure.c:227-276 | one pass of the pattern loop: true exactly when the pattern equals, ignoring ASCII case, the domain or one of the suffixes the `sscanf` stripping loop produces |
| `Wildcard.DetectStatus` | datastructure.c:220-283 | answers 4 or 3, and answers 4 exactly when some pattern equals, ignoring ASCII case, the domain or one of its stripped suffixes |
| `Wildcard.SubdomainExample` | datastructure.c:252-264 | with the patterns {"example.com"}, "ads.example.com" answers 4 |
| `Wildcard.NoHitTwoLabels` | datastructure.c:224-282 | a single pattern that differs, ignoring case, from both `head.rest` and `rest` (dot-free labels) does not hit `head.rest` |

## Left out

- `isValidIPv4` and `isValidIPv6` (datastructure.c:208-218): they only wrap POSIX `inet_pton`, whose parser is not part of this model.
- `gettimestamp`'s clock read `time(NULL)`: the model takes the query time as the argument `t` of `AlignTimestamp`. The query timestamp the function also stores is that `t` itself.
- `logg` calls: logging only.
- `memory_check` and `validate_access` are not part of this model. Capacity is a `seq` that only grows. The sentinel is the `magic` field that every created record carries, and `Valid()` states it. No model covers realloc, growth failure or sentinel aborts.
- Allocation failure of `strdup`/`calloc` in `detectStatus` and in the tables: allocation always succeeds in the model. The pattern-skipping path of lines 236-248 and the leak of `part` are therefore not modelled.
- `sscanf`'s whitespace handling in `%s`: domains are taken to contain no whitespace, so the read suffix is the whole rest of the string.
- `tolower` is the C locale's ASCII mapping; other locales are not modelled.
- `memory.querytypedata` accounting (line 68) and the static `querytypedata` array of a bucket: this code does not write that array.
- Concurrency: the code has none; the tables are single-writer.
- A C string key is modelled as the characters before its terminating NUL, so `strlen` is the sequence length. The first-character prefilter reads the NUL for an empty key.
- OverTime.AlignTimestamp: does not model signed 32-bit overflow of `t - t%600 + 300` for `t` within 300 of `INT_MAX`, nor the truncation of `time(NULL)` to `int`.
- OverTime.OverTimeTable.FindOverTimeId: does not model 32-bit overflow of `timestamp + 600`.
- Tables.DomainTable.FindDomainId: does not model `int` wrap-around of the record counts, of `counters.domains` or of the byte counter.
- Tables.ClientTable.FindClientId: does not model `int` wrap-around of the record counts, of `counters.clients` or of the byte counter.
- Tables.ForwardTable.FindForwardId: does not model `int` wrap-around of the record counts, of `counters.forwarded` or of the byte counter.
- The record types come from FTL.h, which is not part of this model. `MAGICBYTE` is given the value 0x57, and no proof depends on the value. `DnssecStatus` lists the DNSSEC states by name with no numeric codes. The code here only writes `DNSSEC_UNSPECIFIED` (datastructure.c:156). Reply types other than `REPLY_UNKNOWN` are an opaque code, because only `REPLY_UNKNOWN` is written here.
- The byte counters equal the bytes of the interned keys because the tables and counters both start empty, which is the constructors' state. Resets by the caller are out of scope.
