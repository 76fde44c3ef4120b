# HELM kernels: a Dafny model

HELM is a fail-closed execution firewall. Everything it signs, hashes or admits goes through a few
algorithmic kernels, and this project models those kernels and proves what they are relied on for.

| file | kernel |
|---|---|
| `Utf16.dfy`, `Json.dfy`, `JsonRoundTrip.dfy`, `Interop.dfy` | canonical JSON: name order, printer, reader, the second encoder, the interoperable number subset |
| `EvidenceDag.dfy` | the receipt evidence graph and its three-colour depth-first walk |
| `Ceremony.dfy`, `CeremonyDriver.dfy` | the approval ceremony record, its guarded updates, and the racing retry drivers |
| `Ed25519.dfy`, `Quorum.dfy` | signature verification, the point codec, the signer-set projection |
| `SuccessorChain.dfy`, `ReceiptLog.dfy` | hash-linked histories |
| `SchemaAudit.dfy`, `SchemaStandard.dfy` | the JSON Schema interpreter and its coverage audit; the interpreter against the standard |
| `Inventory.dfy` | the release inventory and the archive check tied to it |
| `Frontmatter.dfy`, `GoStrip.dfy`, `Glob.dfy` | an indentation parser, a Go comment and literal blanker, a glob-to-regex compiler |
| `Sorting.dfy`, `HostText.dfy`, `Wrappers.dfy` | shared: keyed sorting, splitting and white space, optional values and dictionary entries |

Conventions. SHA-256 is a free constructor (`Digest(content)`): equal hashes mean equal content and
a hash never occurs inside its own content. `char` is a Unicode scalar value, so `string` is exactly
the text the encoders accept. Dictionaries are sequences of pairs in insertion order. Clock
readings, random values, failures of outside services, the regular-expression engine and the
verification of a single assertion are inputs. Loops of the source are loops here, proved against a
specification that is then studied by lemmas; shared mutable state (the walk's colours, the
ceremony record, the findings list) is a class.

## Results that differ from what one would expect

- **The retry loops of the ceremony can run out.** A conflict is not only reported when another
  request moved the record: a hold older than its maximum lifetime refuses every challenge, and a
  verified quorum refuses every grant while the clock reads before the verification or past the
  challenge. `EveryRun` bounds the rounds by the number of such stalls, `EveryDriverDecides` bounds
  the driver's own steps, `StallExact` says exactly when a step stalls, `LoneDriverExact` says for
  every record exactly when a driver without competition and without outside failures is exhausted,
  and `LapsedHoldExhausts` is a family of such runs. Without stalls an issue driver needs at most two
  rounds and a submit driver at most three, in every interleaving.
- **In its fifth round a submit driver may issue the grant and still report a conflict**: the loop
  ends before the record is read again. `GrantedYetExhausted` says for every record and every clock
  exactly when, and that otherwise an exhausted driver wrote no grant; `LaggingClockRun` is one run.
- **Negative zero splits the canonical encoders.** The first keeps number literals, the second loads
  and renders them: `-0` is canonical text for the first and refused by the second
  (`NegativeZeroRefused`). They agree exactly on values whose numbers are integer tokens other than
  `-0` or fractional tokens the host renders as they stand (`EncodersAgreeExact`).
- **The schema interpreter reads three keywords unlike the standard.** A pattern is held against any
  value, where the standard constrains strings only (`PatternOnNumber`); the host's equality lets
  `true` pass for 1 (`TrueForOne`); and a reference is a definition's name as spelled, where the
  standard reads a JSON Pointer (`RootReference`, `EscapedReference`). `ValidateExact` gives the exact
  difference wherever references mean the same to both; on schemas that refer by bare definition
  names, pair patterns with the string type and list only text, as the registry's own schema does,
  validation is exact (`CheckerExact`).
- **A recovered x coordinate can equal Q**, exactly for a zero root with sign bit 1
  (`RecoverXParity`). Section 5.1.3 of RFC 8032 rejects that encoding; the code decodes it to a point
  congruent to the identity but unequal to it (`SignedIdentityDecodes`), the only encoding of that
  sort (`IdentityAliasExact`). The identity test does not see it, and under that key acceptance does
  not depend on the message (`SignedIdentityKey`, `SignedIdentityAccepts`).
- **A top-level key that begins with `---` ends the frontmatter** before it (`FenceKeyLost`); without
  one, every plain tree survives printing and reading (`DocumentExact`).
- **A compiled glob accepts a final newline**: `$` also matches before it (`CompilerExact`,
  `FinalNewlineAccepted`); on paths without one it is exactly the glob. The only caller passes
  stripped lines (scripts/check_documentation_truth.py:154-156), so there it is the glob.
- **The cycle guard of the evidence walk never fires** on nodes that passed the content check, as the
  comment in the source says (`VerifyReceiptEvidence`, `BoundAcyclic`).

## Model

| member | source | states |
|---|---|---|
| `Sorting.SortOrdered` | reference_packs/canonical-json-v1/verify_vectors.py:107 | sorting entries with distinct keys under a strict total order gives a strictly ordered sequence |
| `Sorting.SortKeeps` | reference_packs/canonical-json-v1/verify_vectors.py:107 | sorting is a permutation |
| `Sorting.SortCanonical` | reference_packs/approval/verify_approval_vectors.py:43-46 | the sorted form depends only on which entries there are, not on insertion order |
| `Utf16.BytesOrderIsUnitOrder` | reference_packs/canonical-json-v1/verify_vectors.py:81-89 | comparing big-endian bytes equals comparing code units, for all unit sequences |
| `Utf16.NameOrderExact` | reference_packs/approval/verify_approval_vectors.py:28-38 | name order is code-unit order, and differs from code-point order exactly when the first difference has one side above U+FFFF and the other in U+E000..U+FFFF, where it is reversed |
| `Utf16.NameOrderTotal` | reference_packs/canonical-json-v1/verify_vectors.py:81-89 | name order is a strict total order on names |
| `Utf16.LessUtf16` | core/pkg/canonicalize/jcs.go:172-201 | the kernel's loop with its ASCII short cut decides the same order |
| `Json.EscapeString` | reference_packs/canonical-json-v1/verify_vectors.py:66-78 | the loop builds the quoted, escaped string; which escape it prints is `EscapeTable` and `EscapeShortest` |
| `Json.Canonicalize` | reference_packs/canonical-json-v1/verify_vectors.py:92-112 | printing sorted name by sorted name equals printing the value reordered at every level |
| `Json.OrderedSort` | reference_packs/approval/verify_approval_vectors.py:41-49 | reordering the values of an object commutes with sorting its names |
| `JsonRoundTrip.PlainEscape` | reference_packs/canonical-json-v1/verify_vectors.py:67-76 | a character is printed as itself exactly when it is neither a quote, a backslash nor a control character |
| `JsonRoundTrip.EscapeTable` | reference_packs/canonical-json-v1/verify_vectors.py:21-29 | the seven characters with a short escape print as that escape |
| `JsonRoundTrip.EscapeShortest` | reference_packs/canonical-json-v1/verify_vectors.py:70-76 | every character prints as itself, as the one-letter escape the reader knows for it, or as four lower-case hexadecimal digits |
| `JsonRoundTrip.DumpCompact` | reference_packs/canonical-json-v1/verify_vectors.py:92-112 | printed text has no white space but what strings hold |
| `JsonRoundTrip.UnitsRead` | reference_packs/canonical-json-v1/verify_vectors.py:56-63 | the escapes of a character's UTF-16 units, one or a surrogate pair, read as the character |
| `JsonRoundTrip.LastPairCounts` | reference_packs/canonical-json-v1/verify_vectors.py:56-63 | of a repeated name the last value counts |
| `JsonRoundTrip.CharsRead` | reference_packs/canonical-json-v1/verify_vectors.py:66-78 | an escaped string reads back as itself, whatever follows |
| `JsonRoundTrip.NumberExact` | reference_packs/canonical-json-v1/verify_vectors.py:56-63 | a number token of section 6 of RFC 8259 is read whole, whatever follows that cannot continue it |
| `JsonRoundTrip.NumberSound` | reference_packs/canonical-json-v1/verify_vectors.py:56-63 | whatever is scanned as a number is in the grammar |
| `JsonRoundTrip.ReadDump` | reference_packs/canonical-json-v1/verify_vectors.py:92-112 | reading a printed value followed by any rest returns the value and that rest |
| `JsonRoundTrip.ReadCanon` | reference_packs/canonical-json-v1/verify_vectors.py:56-112 | reading canonical text returns the value with its members in canonical order |
| `JsonRoundTrip.CanonIdempotent` | reference_packs/canonical-json-v1/verify_vectors.py:92-112 | canonicalizing what canonical text reads as gives the same text |
| `JsonRoundTrip.CanonExact` | reference_packs/canonical-json-v1/verify_vectors.py:92-112 | two values share canonical text if and only if they are equal as JSON values |
| `JsonRoundTrip.ReadSound` | reference_packs/canonical-json-v1/verify_vectors.py:56-63 | every value read has unique names and grammatical numbers, repeated names included |
| `Interop.InteroperableExact` | reference_packs/canonical-json-v1/verify_vectors.py:115-126 | a literal is interoperable if and only if it is the decimal rendering of an integer within 2^53-1 |
| `Wrappers.SafeIntegerBound` | reference_packs/canonical-json-v1/verify_vectors.py:19 | the largest safe integer is 2^53 - 1 |
| `Interop.IntegerTokenExact` | reference_packs/approval/verify_approval_vectors.py:52-67 | re-rendering an integer token returns the token if and only if it is not `-0` |
| `Interop.LoadOrdered` | reference_packs/approval/verify_approval_vectors.py:41-49 | reordering loaded dictionaries equals loading the reordered value |
| `Interop.EncodedLoad` | reference_packs/approval/verify_approval_vectors.py:52-67 | encoding a loaded value prints its literals re-rendered |
| `Interop.EncodersAgree` | reference_packs/canonical-json-v1/verify_vectors.py:92-142 | the two canonical encoders print the same text for every interoperable value |
| `Interop.LoadAgain` | reference_packs/approval/verify_approval_vectors.py:161-165 | loading what was rendered gives the same host value |
| `Interop.SecondEncoder` | reference_packs/approval/verify_approval_vectors.py:52-67 | the second encoder prints the canonical text of the re-rendered value |
| `Interop.EncodersAgreeExact` | reference_packs/approval/verify_approval_vectors.py:52-67 | for every value the host can load, the encoders agree if and only if each number is an integer token other than `-0` or a fractional token that renders to itself |
| `Interop.CanonicalTextExact` | reference_packs/approval/verify_approval_vectors.py:163-166 | a text passes the comparison with its own loaded and re-encoded value if and only if it is the canonical text of a JSON value with such numbers |
| `Interop.NegativeZeroRefused` | reference_packs/approval/verify_approval_vectors.py:163-166 | `-0` is its own canonical text for the first encoder, and the comparison refuses it |
| `EvidenceDag.CheckNodeExact` | reference_packs/launch-mission-v1/verify_vectors.py:438-475 | a node passes if and only if it is bound to its content, in its reservation, before the receipt, canonically listed and free of receipt references, under a new hash |
| `EvidenceDag.NamesReceiptExact` | reference_packs/launch-mission-v1/verify_vectors.py:459-474 | an artifact is forbidden if and only if, in some letter case, it equals one of the receipt's references, begins with `receipt:` or `evidencepack:`, or is 64 hexadecimal digits |
| `EvidenceDag.CanonicalOrdered` | reference_packs/launch-mission-v1/verify_vectors.py:412-416 | a canonical list is strictly increasing throughout, without repetition or empty entry |
| `EvidenceDag.NodesPassExact` | reference_packs/launch-mission-v1/verify_vectors.py:437-475 | the nodes pass one after the other if and only if each is admissible and no hash repeats |
| `EvidenceDag.IndexNodes` | reference_packs/launch-mission-v1/verify_vectors.py:437-475 | the index is complete exactly when every node is admissible and no hash repeats |
| `EvidenceDag.Walk.Visit` | reference_packs/launch-mission-v1/verify_vectors.py:482-498 | a visit terminates on any graph; success leaves the node finished with finished, earlier parents; failure comes with a chain from the root to the fault |
| `EvidenceDag.WalkFrom` | reference_packs/launch-mission-v1/verify_vectors.py:480-500 | on any graph the walk accepts if and only if every reachable node is present with all parents present and strictly earlier |
| `EvidenceDag.VerifyReceiptEvidence` | reference_packs/launch-mission-v1/verify_vectors.py:433-500 | acceptance is exactly: admissible nodes under distinct hashes, the top among them and everything reachable sound; the cycle branch is unreachable |
| `EvidenceDag.AcceptedNode` | reference_packs/launch-mission-v1/verify_vectors.py:437-474 | every accepted node is sealed by its content, of the receipt's session and reservation, before the receipt, and names nothing forbidden |
| `EvidenceDag.BoundAcyclic` | reference_packs/launch-mission-v1/verify_vectors.py:419-430 | a content-bound graph has no parent cycle, sound or not |
| `EvidenceDag.ClockFalls` | reference_packs/launch-mission-v1/verify_vectors.py:491-497 | along any chain of a sound graph the clock falls by at least one per step |
| `EvidenceDag.AcceptedBounded` | reference_packs/launch-mission-v1/verify_vectors.py:447-449 | every ancestor chain of an accepted receipt is repetition-free and shorter than the receipt's clock |
| `EvidenceDag.TopPinsAncestry` | reference_packs/launch-mission-v1/verify_vectors.py:419-430 | two accepted graphs with the same top hash have the same chains and the same content along them |
| `Ceremony.DriverStep` | core/cmd/helm-ai-kernel/approval_consumption_routes.go:257-310 | every atomic step of a driver keeps the record valid and growing, and keeps the driver's own loop invariant |
| `Ceremony.EnvironmentStep` | core/pkg/boundary/approvalceremony/postgres_store.go:356-527 | consumption, denial and expiry keep the record valid and growing |
| `Ceremony.DriverStable` | core/pkg/boundary/approvalceremony/postgres_store.go:259-354 | no update by another party breaks what a driver relies on between its steps |
| `Ceremony.ExecInv` | core/cmd/helm-ai-kernel/approval_consumption_routes.go:257-310 | the invariant holds after every finite run of any number of drivers |
| `Ceremony.EveryRun` | core/cmd/helm-ai-kernel/approval_consumption_routes.go:257-310 | in every interleaving: rounds at most stalls plus one (issue) or two (submit), exhaustion only after two or three stalls, success only with a valid record in a served state |
| `Ceremony.OwnSteps` | core/cmd/helm-ai-kernel/approval_consumption_routes.go:257-310 | in every interleaving each own event takes a driver at least one step on until it has decided |
| `Ceremony.EveryDriverDecides` | core/cmd/helm-ai-kernel/approval_consumption_routes.go:257-310 | in every interleaving a driver has decided after three own steps per round that its stalls and the record's moves can take, and always after three per round it has |
| `Ceremony.Lifetimes` | core/pkg/boundary/approvalceremony/service.go:247-250 | in every interleaving a challenge expires at the earlier of its time to live and the hold's lifetime, and a grant at the earlier of its time to live and the challenge's expiry |
| `Ceremony.StateChanges` | core/pkg/boundary/approvalceremony/postgres_store.go:259-527 | only the legal changes of state occur, each by its own cause |
| `Ceremony.ConsumeExact` | core/pkg/boundary/approvalceremony/postgres_store.go:356-447 | a grant is consumed if and only if it is issued, named by its id, and the clock is from its issue up to its expiry |
| `Ceremony.DenyExact` | core/pkg/boundary/approvalceremony/postgres_store.go:498-511 | a record is denied if and only if it is open and the clock is not before its last update |
| `Ceremony.ExpireExact` | core/pkg/boundary/approvalceremony/postgres_store.go:513-527 | a record expires if and only if its challenge, or the grant that replaced it, has run out |
| `Ceremony.ServedAtOnce` | core/cmd/helm-ai-kernel/approval_consumption_routes.go:257-310 | a lone driver returns a record it serves and refuses one it does not, at its first read |
| `Ceremony.ConsumedOnce` | core/pkg/boundary/approvalceremony/types.go:236-311 | a consumed record passed hold, challenge, quorum, grant and consumption in order within all windows and configured lifetimes, and never changes again |
| `Ceremony.StallExact` | core/pkg/boundary/approvalceremony/service.go:235-337 | a step counts a stall exactly at a clock reading outside the window of an unmoved record |
| `Ceremony.AloneExact` | core/cmd/helm-ai-kernel/approval_consumption_routes.go:257-310 | a driver alone on a record that waits for it is exhausted if and only if the clock stalls it in every deciding round |
| `Ceremony.AloneUnstalled` | core/cmd/helm-ai-kernel/approval_consumption_routes.go:257-310 | an unstalled call decides a lone driver unless it was the fifth submit round, and writes exactly the challenge or grant of that call with its configured lifetime |
| `Ceremony.AloneVerifies` | core/cmd/helm-ai-kernel/approval_consumption_routes.go:287-294 | on an issued challenge a lone submit driver verifies and goes on to the next round inside the window, and fails outside it |
| `Ceremony.LoneDriverExact` | core/cmd/helm-ai-kernel/approval_consumption_routes.go:257-310 | on every valid record a fresh lone driver is exhausted if and only if the record waits for it and the clock stalls it in three rounds (issue, or submit after its own verification) or four (submit on a verified quorum) |
| `Ceremony.LastRound` | core/cmd/helm-ai-kernel/approval_consumption_routes.go:280-310 | after stalls in all rounds but the last, the last call decides: a stall leaves the record unchanged, any other reading writes the grant, and the driver is exhausted either way |
| `Ceremony.GrantedYetExhausted` | core/cmd/helm-ai-kernel/approval_consumption_routes.go:280-310 | on every valid record and all failure-free inputs a lone submit driver ends exhausted with the grant issued if and only if it runs out of retries and its last call does not stall; exhausted otherwise, the record is as found or as its own verification made it |
| `Ceremony.LaggingClockRun` | core/cmd/helm-ai-kernel/approval_consumption_routes.go:280-310 | one such run: a clock that lags for four rounds and then catches up |
| `Ceremony.LapsedHoldExhausts` | core/pkg/boundary/approvalceremony/service.go:243-246 | any hold left past its lifetime exhausts the issue driver |
| `CeremonyDriver.Controller.Write` | core/pkg/boundary/approvalceremony/postgres_store.go:259-354 | the guarded update is the driver's atomic step: success raises the record one level, a conflict means it had moved past the update |
| `CeremonyDriver.Controller.IssueChallenge` | core/pkg/boundary/approvalceremony/service.go:226-282 | a conflict means the record moved or the hold had lapsed; success is the challenge just written |
| `CeremonyDriver.Controller.VerifyQuorum` | core/pkg/boundary/approvalceremony/service.go:284-313 | success or conflict both leave the record past the challenge stage |
| `CeremonyDriver.Controller.IssueGrant` | core/pkg/boundary/approvalceremony/service.go:315-375 | a conflict means the record is final for drivers or the clock is outside the grant window |
| `CeremonyDriver.Controller.IssueApprovalChallenge` | core/cmd/helm-ai-kernel/approval_consumption_routes.go:257-278 | under arbitrary interference: exhausted only if the first two readings were past the hold's lifetime |
| `CeremonyDriver.Controller.SubmitRound` | core/cmd/helm-ai-kernel/approval_consumption_routes.go:281-308 | under arbitrary interference: a round that does not decide leaves the record verified at least, and moved on unless the clock was outside the window |
| `CeremonyDriver.Controller.SubmitApprovalAssertions` | core/cmd/helm-ai-kernel/approval_consumption_routes.go:280-310 | under arbitrary interference: returns only a granted or consumed record, exhausted only after three readings outside the window |
| `Ed25519.DoubleAndAddExact` | reference_packs/approval/verify_approval_vectors.py:126-134 | the loop's two variables account for the first plus the scalar multiple of the second |
| `Ed25519.ScalarMult` | reference_packs/approval/verify_approval_vectors.py:126-134 | the loop computes double-and-add for any operation, which is n-fold addition in any associative one with a unit |
| `Ed25519.VerifyEd25519` | reference_packs/approval/verify_approval_vectors.py:141-158 | the verifier with its early rejections decides the declared condition, for any operation and codec |
| `Ed25519.VerifyExact` | reference_packs/approval/verify_approval_vectors.py:141-158 | in any group the verifier accepts if and only if the signature is R and S with S below L, both points of order dividing L, and S B = R + k A |
| `Ed25519.LittleEndian` | reference_packs/approval/verify_approval_vectors.py:101-114 | byte strings are read with the first byte counting least |
| `Ed25519.SignatureEquation` | reference_packs/approval/verify_approval_vectors.py:157-158 | (r + k a mod L) B = r B + k (a B) |
| `Ed25519.SignedVerifies` | reference_packs/approval/verify_approval_vectors.py:141-158 | every signature made as in section 5.1.6 of RFC 8032 is accepted if and only if the public point is not the identity |
| `Ed25519.SignatureUnique` | reference_packs/approval/verify_approval_vectors.py:152-158 | with a base of exact order L, key, message and R leave one acceptable signature |
| `Ed25519.PointAddSymmetric` | reference_packs/approval/verify_approval_vectors.py:117-123 | the addition formula is symmetric |
| `Ed25519.PointAddReduces` | reference_packs/approval/verify_approval_vectors.py:117-123 | adding (0, 1) on either side reduces the coordinates |
| `Ed25519.PointAddUnit` | reference_packs/approval/verify_approval_vectors.py:117-123 | (0, 1) is a unit if and only if the coordinates are reduced |
| `Ed25519.AdditionLaw` | reference_packs/approval/verify_approval_vectors.py:117-123 | the sum's coordinates times their denominators are the numerators, up to the power Q - 1 of the denominator |
| `Ed25519.PowModExact` | reference_packs/approval/verify_approval_vectors.py:87-122 | modular powers are the powers, reduced |
| `Ed25519.CurveConstants` | reference_packs/approval/verify_approval_vectors.py:12-19 | Q is 2^255 - 19 and L is 2^252 plus the constant of RFC 8032 |
| `Ed25519.SquareLaw` | reference_packs/approval/verify_approval_vectors.py:87 | the square of x solves the curve equation for y in the same sense |
| `Ed25519.RecoverXRoot` | reference_packs/approval/verify_approval_vectors.py:86-95 | a recovered x is a square root of that square |
| `Ed25519.RecoverXExact` | reference_packs/approval/verify_approval_vectors.py:86-95 | an x is recovered if and only if the candidate power, or it times the fourth root of one, is a root |
| `Ed25519.RecoverXParity` | reference_packs/approval/verify_approval_vectors.py:86-95 | the recovered x has the parity of the sign bit, lies in 0..Q, and is Q exactly for a zero square with sign 1 |
| `Ed25519.DecodeExact` | reference_packs/approval/verify_approval_vectors.py:98-114 | a 32-byte string decodes if and only if y is reduced and has a root; the re-encoding check never rejects; the point encodes back to the bytes |
| `Ed25519.DecodedOnCurve` | reference_packs/approval/verify_approval_vectors.py:98-109 | a decoded point satisfies the curve equation in the sense of those laws |
| `Ed25519.DecodeInjective` | reference_packs/approval/verify_approval_vectors.py:98-109 | decoding is injective |
| `Ed25519.SignedIdentityDecodes` | reference_packs/approval/verify_approval_vectors.py:86-109 | y = 1 with the sign bit set decodes, to (Q, 1) |
| `Ed25519.IdentityAliasExact` | reference_packs/approval/verify_approval_vectors.py:98-109 | a decoded point is congruent to the identity and unequal to it if and only if it came from that encoding |
| `Ed25519.VanishingKey` | reference_packs/approval/verify_approval_vectors.py:150-158 | a public point whose sums with the identity and itself vanish drops out of the equation |
| `Ed25519.SignedIdentityKey` | reference_packs/approval/verify_approval_vectors.py:141-158 | under that encoding as the public key acceptance does not depend on the message, and exactly on what it does depend |
| `Ed25519.SignedIdentityAccepts` | reference_packs/approval/verify_approval_vectors.py:141-158 | under that key one fixed signature is accepted for every message |
| `Quorum.ClashExact` | reference_packs/approval/verify_approval_vectors.py:340-352 | the five seen-sets report a clash exactly when some earlier signer shares a dimension |
| `Quorum.Collect` | reference_packs/approval/verify_approval_vectors.py:338-353 | the loop succeeds exactly when every assertion verifies and all signers differ pairwise in all five dimensions |
| `Quorum.VerifyCase` | reference_packs/approval/verify_approval_vectors.py:327-403 | a case is accepted exactly under the declared condition, with the sorted signers as projection |
| `Quorum.AcceptedSigners` | reference_packs/approval/verify_approval_vectors.py:330-355 | an accepted case has at least quorum signers, strictly increasing by principal, each from a verified assertion of a submitted key id, and states its status, signer set and context truly |
| `Quorum.AcceptedDimensions` | reference_packs/approval/verify_approval_vectors.py:340-352 | any two accepted assertions differ in principal, credential, device, key id and public key |
| `Quorum.SignerOrder` | reference_packs/approval/verify_approval_vectors.py:355 | signers are ordered by principal, then credential, device and key id, by code points |
| `Quorum.OrderIrrelevant` | reference_packs/approval/verify_approval_vectors.py:341-364 | any permutation of the key ids is accepted alike with the identical signer set |
| `SuccessorChain.ValidateChain` | reference_packs/evidence-pack-successor-v1/verify_vectors.py:180-217 | the loop accepts exactly the chains that satisfy the declared condition, in the declared order and kinds |
| `SuccessorChain.LineageFrozen` | reference_packs/evidence-pack-successor-v1/verify_vectors.py:206-216 | every addendum carries the root's lineage and sealed pack and names its immediate predecessor's id and hash |
| `SuccessorChain.AcceptedNodes` | reference_packs/evidence-pack-successor-v1/verify_vectors.py:138-217 | every node is an attestation sealed by its own hash under its predecessor, every addendum of the released version with its own identity and hash |
| `SuccessorChain.IdentityExact` | reference_packs/evidence-pack-successor-v1/verify_vectors.py:112-126 | equal identities if and only if equal version, predecessor, kind, window and, by kind, outcome contract or measurement plan hash |
| `SuccessorChain.SuccessorHashExact` | reference_packs/evidence-pack-successor-v1/verify_vectors.py:129-132 | equal successor hashes if and only if equal but for the hash field |
| `SuccessorChain.NodeHashExact` | reference_packs/evidence-pack-successor-v1/verify_vectors.py:158-170 | equal node hashes if and only if equal but for the hash field |
| `SuccessorChain.LineageExact` | reference_packs/evidence-pack-successor-v1/verify_vectors.py:96-109 | a lineage is valid if and only if it is of its version and tenant scope with tokens and hashes in place |
| `SuccessorChain.IdentitiesDistinct` | reference_packs/evidence-pack-successor-v1/verify_vectors.py:112-132 | successor ids and hashes are pairwise distinct along a chain of any length |
| `SuccessorChain.LastHashPinsChain` | reference_packs/evidence-pack-successor-v1/verify_vectors.py:158-170 | equal last node hashes mean equal length and equal hashed content at every node |
| `ReceiptLog.Verify` | examples/governed_local_inference/verify_chain.py:21-48 | the loop accepts exactly the non-empty chained logs and counts receipts and signatures |
| `ReceiptLog.EntriesExact` | examples/governed_local_inference/verify_chain.py:28-29 | the entries are the lines in order without the blank ones |
| `ReceiptLog.SignedExact` | examples/governed_local_inference/verify_chain.py:39-40 | the signatures counted are the receipts that carry one |
| `ReceiptLog.AcceptedLinks` | examples/governed_local_inference/verify_chain.py:32-34 | each receipt names the hash of the one before it, the first the beginning |
| `ReceiptLog.AcceptedPrefix` | examples/governed_local_inference/verify_chain.py:32-43 | the k-th receipt has clock k, and every non-empty prefix is accepted |
| `ReceiptLog.TipPinsLog` | examples/governed_local_inference/verify_chain.py:41 | two accepted logs with the same last line hash have the same receipts |
| `SchemaAudit.Report.Audit` | scripts/ci/check_reason_codes.py:45-64 | the walker appends exactly the audit findings to the shared list |
| `SchemaAudit.Report.Validate` | scripts/ci/check_reason_codes.py:67-109 | on every instance on which references end, the interpreter returns, having appended exactly the validation findings to the shared list |
| `SchemaAudit.AuditExact` | scripts/ci/check_reason_codes.py:45-64 | the audit is silent if and only if every schema it visits uses enforced keywords and types only |
| `SchemaAudit.AuditSound` | scripts/ci/check_reason_codes.py:45-64 | every audit finding is a fault of the schema that its path leads to |
| `SchemaAudit.AuditComplete` | scripts/ci/check_reason_codes.py:45-64 | every fault of a schema below is reported under its path |
| `SchemaAudit.ReachedWasAudited` | scripts/ci/check_reason_codes.py:45-109 | every schema validation can reach on any instance, through any references, was visited by the audit |
| `SchemaStandard.SameExact` | scripts/ci/check_reason_codes.py:87-90 | host equality without a truth value meeting a number is the equality of JSON instances, defined on its own |
| `SchemaStandard.EqualIsSameValue` | scripts/ci/check_reason_codes.py:87-90 | for tokens that stand for different numbers it is the equality that canonical text decides |
| `SchemaStandard.MixedExact` | scripts/ci/check_reason_codes.py:87-90 | where a truth value meets a number the host takes true for 1 and false for 0 |
| `SchemaAudit.SilentExact` | scripts/ci/check_reason_codes.py:67-109 | after a clean audit validation is silent if and only if every test it makes anywhere succeeds |
| `SchemaAudit.ScalarReported` | scripts/ci/check_reason_codes.py:87-92 | constant, enumeration and pattern findings are reported if and only if that test fails, under that name |
| `SchemaAudit.MissingReported` | scripts/ci/check_reason_codes.py:103-106 | exactly the required names without a member are reported missing |
| `SchemaAudit.ListReported` | scripts/ci/check_reason_codes.py:94-101 | the findings about a list are too few elements and those of each element under its index |
| `SchemaAudit.PropertiesReported` | scripts/ci/check_reason_codes.py:107-109 | the findings about fields are those of each present field under its name |
| `SchemaAudit.EarlyReturns` | scripts/ci/check_reason_codes.py:70-85 | an unresolved reference or a wrong type is all that is reported |
| `SchemaAudit.EverywhereParts` | scripts/ci/check_reason_codes.py:67-109 | a condition holds of all that validation brings together if and only if it holds here, behind the reference and in every element and present field |
| `SchemaAudit.UnusedLoopEnds` | scripts/ci/check_reason_codes.py:69-76 | a definition that refers to itself but is not used does not keep validation from returning |
| `SchemaStandard.DefinitionMeant` | scripts/ci/check_reason_codes.py:69-76 | by the standard `#/$defs/` and one token names the definition under the unescaped token |
| `SchemaStandard.UnescapedBack` | scripts/ci/check_reason_codes.py:70-75 | reading a pointer token undoes its spelling with `~0` and `~1` |
| `SchemaStandard.PercentBack` | scripts/ci/check_reason_codes.py:70-75 | decoding a fragment undoes writing its characters as percent escapes of UTF-8 |
| `SchemaStandard.PlainRefMeant` | scripts/ci/check_reason_codes.py:69-76 | a bare definition name means the same to the interpreter and to the standard |
| `SchemaStandard.ReadingsDiffer` | scripts/ci/check_reason_codes.py:87-92 | on one instance and enforced schema whose reference means the same, interpreter and standard differ by mixed comparisons and patterns on non-strings, and no more |
| `SchemaStandard.ValidateExact` | scripts/ci/check_reason_codes.py:67-109 | after a clean audit, on every instance whose references end and mean what the standard says: silent without mixed comparisons if and only if conforming with patterns on strings only |
| `SchemaStandard.PlainExact` | scripts/ci/check_reason_codes.py:67-109 | on plain schemas references mean the same and the interpreter's tests are the standard's, on every instance |
| `SchemaStandard.CheckerExact` | scripts/ci/check_reason_codes.py:138-147 | the same for both passes together; on plain schemas both are silent if and only if the schema is enforced throughout and the registry conforms |
| `SchemaStandard.RootReference` | scripts/ci/check_reason_codes.py:70-75 | a reference to the whole document is reported on an instance that conforms |
| `SchemaStandard.EscapedReference` | scripts/ci/check_reason_codes.py:70-75 | an escaped reference is taken by its spelling and an instance passes that does not conform |
| `SchemaStandard.PatternOnNumber` | scripts/ci/check_reason_codes.py:91-92 | a schema with pattern `a` reports the number 5, which conforms |
| `SchemaStandard.TrueForOne` | scripts/ci/check_reason_codes.py:87-88 | a schema with constant 1 passes `true`, which does not conform |
| `SchemaStandard.UnauditedTypeHides` | scripts/ci/check_reason_codes.py:78-82 | without the audit an unenforced type lets a non-conforming instance pass |
| `Inventory.ParseLineExact` | scripts/release/console_local_sidecar.py:238-244 | a line parses to an entry exactly when it is the printed form of that entry |
| `Inventory.ParseInventory` | scripts/release/console_local_sidecar.py:225-253 | accepted text is exactly the printed form of a valid sorted inventory within the size limit, which is returned |
| `Inventory.ListedEntry` | scripts/release/console_local_sidecar.py:236-246 | a listed entry has 64 lower-case hexadecimal digits and a supported path without line breaks, backslashes or empty, `.` or `..` components |
| `Inventory.SafePathExact` | scripts/release/console_local_sidecar.py:198-222 | a path is safe if and only if it has no backslash and no empty, `.` or `..` component |
| `Inventory.Limits` | scripts/release/console_local_sidecar.py:45-46 | the limits are 512 and 16 binary megabytes, counted on the UTF-8 encoding |
| `Inventory.PrintInjective` | scripts/release/console_local_sidecar.py:225-253 | the text determines the entries |
| `Inventory.ItemsFaithful` | scripts/release/console_local_sidecar.py:404-411 | distinct safe names under one root have distinct relative paths |
| `Inventory.ScanMembers` | scripts/release/console_local_sidecar.py:393-434 | the member loop accepts exactly the admissible lists and collects exactly their files and total |
| `Inventory.AcceptedMember` | scripts/release/console_local_sidecar.py:398-414 | every member of an accepted list has a canonical path under the root, which is its name but for a directory's last slash, and every file a size within the limit |
| `Inventory.AcceptedInside` | scripts/release/console_local_sidecar.py:404-417 | every accepted path is the root or below it without `..`, and metadata files fit their own limit |
| `Inventory.FileRelative` | scripts/release/console_local_sidecar.py:409 | a file lies at its relative path below the root |
| `Inventory.AcceptedMembers` | scripts/release/console_local_sidecar.py:398-414 | no two members of an accepted list share a path |
| `Inventory.AcceptedTotal` | scripts/release/console_local_sidecar.py:412-414 | every prefix is accepted and its payload total is within the limit, the whole list included |
| `Inventory.MatchesPayload` | scripts/release/console_local_sidecar.py:446-452 | the comparison holds exactly when inventory and payload are the same map |
| `Inventory.VerifyArchive` | scripts/release/console_local_sidecar.py:376-456 | the archive check accepts exactly the declared condition |
| `Inventory.AcceptedRequired` | scripts/release/console_local_sidecar.py:438-456 | an accepted archive holds the five required files, an executable runtime and the released inventory under its hash |
| `Inventory.PayloadExact` | scripts/release/console_local_sidecar.py:447 | the payload is every file but the two metadata files, under its digest |
| `Inventory.BundleHashExact` | scripts/release/console_local_sidecar.py:447-456 | for accepted archives, bundle hashes are equal if and only if the payload maps are equal |
| `Inventory.AcceptedPayload` | scripts/release/console_local_sidecar.py:446-452 | every payload file of an accepted archive is listed under a supported safe path with its digest |
| `Frontmatter.ParseList` | tools/skills-cert-profile/lint_skill.py:47-55 | the loop reads exactly the items the specification reads and stops where it stops |
| `Frontmatter.ParseMap` | tools/skills-cert-profile/lint_skill.py:57-80 | the nested loops terminate on any lines and read what the specification reads |
| `Frontmatter.EntriesParse` | tools/skills-cert-profile/lint_skill.py:57-80 | parsing a printed map in front of shallower lines gives the map back and stops there |
| `Frontmatter.ParsePrint` | tools/skills-cert-profile/lint_skill.py:32-82 | printing any tree of maps, non-empty lists and plain scalars and parsing it returns the tree, at any indentation |
| `Frontmatter.ParsePrintRaw` | tools/skills-cert-profile/lint_skill.py:39-45 | the same through raw text lines with their leading blanks |
| `Frontmatter.KeepLines` | tools/skills-cert-profile/lint_skill.py:38-41 | the loop keeps the lines that are neither blank nor comments, with indentation and trimmed text |
| `Frontmatter.CommentsIgnored` | tools/skills-cert-profile/lint_skill.py:39-41 | blank lines and comments change nothing, wherever they stand |
| `Frontmatter.QuotedScalar` | tools/skills-cert-profile/lint_skill.py:43-44 | a scalar in quotation marks reads as its inside, whatever blanks surround it |
| `Frontmatter.LineSkipped` | tools/skills-cert-profile/lint_skill.py:62-66 | in a map a deeper line, a list item or a line without a colon is passed over |
| `Wrappers.SetKeyNames` | tools/skills-cert-profile/lint_skill.py:71-80 | setting an entry keeps the names and their order, and adds a new name at the end |
| `Frontmatter.ParseFrontmatter` | tools/skills-cert-profile/lint_skill.py:32-82 | the reader on any text computes the specification: nothing without fences, otherwise the parse of the kept lines between them |
| `Frontmatter.SplitJoined` | tools/skills-cert-profile/lint_skill.py:39 | splitting into lines undoes joining by line feeds, up to an empty last line |
| `Frontmatter.DocumentExact` | tools/skills-cert-profile/lint_skill.py:32-82 | a plain tree printed between fences is read back if and only if no key at the margin begins with the fence, whatever follows |
| `Frontmatter.FenceKeyLost` | tools/skills-cert-profile/lint_skill.py:36-38 | a top-level key `---` is not read at all |
| `GoStrip.SkipQuoted` | scripts/ci/check_reason_code_reachability.py:72-88 | the quoted-literal scan ends where the automaton leaves the literal, escapes and unterminated literals included |
| `GoStrip.StripGoNoncode` | scripts/ci/check_reason_code_reachability.py:47-93 | the segment scanner computes the output of the one-character automaton |
| `GoStrip.CodeKept` | scripts/ci/check_reason_code_reachability.py:90-92 | a character of ordinary code is kept and stripping goes on behind it |
| `GoStrip.QuotedBlanked` | scripts/ci/check_reason_code_reachability.py:72-88 | a string or rune literal, escapes included, is blanked from quote to quote |
| `GoStrip.OpenQuotedBlanked` | scripts/ci/check_reason_code_reachability.py:72-88 | without its closing quote, also after a last backslash, it is blanked to the end |
| `GoStrip.RawBlanked` | scripts/ci/check_reason_code_reachability.py:72-77 | a raw literal is blanked from backquote to backquote or to the end |
| `GoStrip.LineCommentBlanked` | scripts/ci/check_reason_code_reachability.py:62-66 | a line comment is blanked up to its line feed, which stays, or to the end |
| `GoStrip.BlockCommentBlanked` | scripts/ci/check_reason_code_reachability.py:67-71 | a block comment is blanked from its opening to the first closing or to the end |
| `GoStrip.CharacterFate` | scripts/ci/check_reason_code_reachability.py:57-58 | each character is kept exactly when the automaton reads it as code, and blanked otherwise |
| `GoStrip.StripAligned` | scripts/ci/check_reason_code_reachability.py:48-53 | length and newline positions are kept; every character is the original or a space |
| `GoStrip.StripClean` | scripts/ci/check_reason_code_reachability.py:60-92 | no quotation mark and no comment opener is left |
| `GoStrip.StripIdempotent` | scripts/ci/check_reason_code_reachability.py:47-93 | stripping twice equals stripping once |
| `Glob.InventoryPatternToRegex` | scripts/check_documentation_truth.py:159-174 | the index loop emits the anchored text of the pattern's items |
| `Glob.EscapeCovers` | scripts/check_documentation_truth.py:171-172 | escaping covers every meta character and no letter or digit |
| `Glob.ReadText` | scripts/check_documentation_truth.py:171-174 | the emitted text reads back as the same items |
| `Glob.ItemsMeaning` | scripts/check_documentation_truth.py:159-174 | the items match exactly what the direct matcher on the pattern matches |
| `Glob.LiteralLaw` | scripts/check_documentation_truth.py:171-172 | text without stars matches itself in front of what the rest matches |
| `Glob.OneStarLaw` | scripts/check_documentation_truth.py:169-170 | one star stands for any text without a slash |
| `Glob.TwoStarLaw` | scripts/check_documentation_truth.py:165-168 | two stars stand for any text without a newline |
| `Glob.CompilerExact` | scripts/check_documentation_truth.py:177-178 | for every pattern and path, acceptance is the glob, or the glob on the path without its final newline |
| `Glob.CompilerMeaning` | scripts/check_documentation_truth.py:177-178 | on paths without a final newline acceptance is the glob |
| `Glob.FinalNewlineAccepted` | scripts/check_documentation_truth.py:174-178 | pattern `a` accepts the path "a" followed by a newline |
| `Glob.StarRuns` | scripts/check_documentation_truth.py:165-170 | on newline-free paths any run of two or more stars means two stars |

## Left out

- SHA-256 and SHA-512 themselves, the primality of Q and the associativity of the concrete curve addition: hashing is a free constructor and `ScalarMult` is stated for any associative operation with a unit.
- Byte encodings of canonical text: printer, reader and inventory work on Unicode text; UTF-8 enters only as a length.
- `JsonRoundTrip.ReadSound`: escapes that spell a lone surrogate are refused by the model's reader, since no Unicode string can hold them; the host reader accepts them.
- `Interop.InteroperableExact`: digits are ASCII, as in every JSON number token; the host's digit test also accepts other Unicode digits, and its integer conversion refuses literals of several thousand digits.
- `Interop.EncodersAgree`: the path reported for a non-interoperable number.
- `Interop.CanonicalTextExact`: floating-point numbers are given by the text a token renders to, assumed to be a token that renders to itself; a token beyond their range is refused at once. The words `NaN` and `Infinity`, which are not JSON but which this host reader takes and prints, are refused. The text is the file's without its final newline.
- `EvidenceDag.CheckNodeExact`: letter case is folded for ASCII only, and fields of a wrong JSON type are outside the model.
- `Ceremony.EveryRun`: identity checks, grant signatures, the emergency-stop fence and database errors appear as the failure inputs of a step; the contents of challenges and grants beyond identity and times are left out, being long lists of field equalities.
- `Ceremony.LoneDriverExact`: runs in which an outside service fails, which end as failed.
- `Ceremony.ExecInv`: creation of the record is its initial state; resuming a ceremony reads it only.
- `Quorum.VerifyCase`: verification of one assertion is a function of its key id, and projection fields that no signer enters are one condition of the case.
- `SuccessorChain.ValidateChain`: missing or additional fields of a payload are its `OtherPayload` case.
- `ReceiptLog.Verify`: a line is given as read, its clock as the number it compares as, so that `true` and `1.0` are 1 and a clock that is no number is refused as unreadable; a line that is not JSON is `Unreadable` and refused, where the source stops with an exception.
- `SchemaStandard.ValidateExact`: instances on which references loop without end, on which the source does not return. The document is one resource of object schemas with single type names: embedded `$id`, anchors, other documents and Boolean schemas are not modelled. The value of a number token and the regular-expression search are inputs shared with the standard's reading, so rounding and the dialect of expressions are not compared. The labels of list findings and the legibility rules are not modelled.
- `Inventory.VerifyArchive`: tar, gzip, file access, the chunked digest of a member, provenance and signatures; a member is given with its kind, size, digest and mode.
- `Glob.CompilerExact`: the regular-expression engine is its matching semantics on the fragment the compiler emits; family lists with exclusions are single Boolean combinations of it.
- The effect-close, disposition, admission and connector-release verifiers, HTTP routing, configuration, release and CLI scripts: field comparisons and plumbing that would only add easy members.
