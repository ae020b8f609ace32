# Munkey: a verified model

Munkey keeps password vaults on several devices. Devices find each other by
crawling the peer lists they publish, each device keeps a registry of the vaults
it holds, and a vault is one stored document: entries as JSON, joined with a
private key, encrypted, framed, signed and framed again. This project models that
behaviour in Dafny 4.11 and proves what it keeps over every input, every run and
every interleaving.

`dafny verify dfyconfig.toml` checks everything.

| file | models |
|---|---|
| `Outcomes.dfy`, `JsMap.dfy` | optional and thrown results; the ECMAScript `Map`, with live iteration (section 24.1 of ECMA-262) |
| `Locations.dfy` | `host:port` keys, `split`, `parseInt` |
| `Crawls.dfy`, `Crowds.dfy`, `ActivityService.dfy` | the peer crawl as a work-list machine, many crawls at once, the recursive service itself |
| `Registry.dfy`, `VaultService.dfy`, `Worlds.dfy` | the vault registry as a state machine, the object with its two maps, the registry beside the stored documents |
| `Admin.dfy`, `Restarts.dfy` | the persisted list of vaults, concurrent recordings, restarts |
| `Bytes.dfy`, `Codec.dfy`, `ClientCodec.dfy` | 32-bit little-endian integers, the three frames in TypeScript and in C# |
| `Sealing.dfy`, `Shell.dfy`, `StoredContent.dfy`, `Clients.dfy` | sealing and opening a vault, the shell commands, many clients writing at once, and clients that keep to rules |
| `Storage.dfy`, `Connections.dfy` | revision-checked writes, the table of sync connections |

How the parts are modelled:

- Code that updates objects is a class whose methods are proved against functions
  of the old state (`PublishDevice`, `RestorePeer`, `VaultService`, `AdminService`,
  `VaultDatabase`, `ConnectionService`, `ShellCommandServer`, the C# writer and
  reader). What the source promises is then proved about those functions.
- Code that awaits is a state machine whose events are the stretches between two
  awaits; the theorems hold for every sequence of events.
- The network is a function from request number and location to an answer, which may
  change at every request. A request yields nothing usable (`Silent`), text on which
  the parser or the validator throws (`Garbled`), or a valid identity document.
- Cryptography and JSON are function parameters. `Crypto.Lawful` asks that
  decryption inverts encryption, that the id made from a private key accepts what the
  key signs, and that parsing inverts printing. Nothing says that signatures tell ids
  apart: ids are decoded leniently, so several strings stand for one key
  (munkey/encryption/serialize.ts:57), and a second id can be computed from one ECDSA
  signature. Where a lemma needs that an id which accepts one signature of a key
  accepts them all, it asks so of that id and key only (`Crypto.UniformAt`). Given a
  JSON that parses what it prints, `ToyIsLawful` shows that the laws contradict neither
  it nor each other.

Some properties one would expect are false of the code. Each has a counterexample and
the condition under which it holds:

- Re-pointing a nickname with `linkVault` can leave a vault without a name and its
  store open twice (`RepointingSharesStore`). `NamedNext` says exactly which events
  leave a vault without a name, `StoresDistinctNext` exactly which make two share a
  store, and `AnchoredNext` exactly which take a vault its opening name.
- A deleted vault keeps its record, so a restart brings it back and a new vault
  under its name is lost (`DeletedVaultReturns`). After any run a recorded vault
  survives a restart exactly when its record is the first of its name
  (`SurvivesIffFirst`), and a delete is undone by the next restart exactly then
  (`DeletedReturnsIff`).
- Decoding a location key inverts encoding exactly for hosts without a colon
  (`DecodeKey`, `ColonHostsRepeat`), and the list sent to peers repeats a device exactly
  when two keys share host and port once decoded (`DeviceListRepeats`).
- The TypeScript and C# decoders part on some malformed frames; the three
  agreement lemmas say exactly on which.
- Overlapped with a write, `initialize` replaces it (`InitializeOverwrites`), exactly
  when a write took effect between its check and its revision read
  (`InitializeCreatesIff`).
- A late error event cancels the newer connection of its place, exactly when there is
  one (`LateErrorCancelsNewer`).
- Live vaults can come to hold content that does not verify under their ids. From any
  state where all of it does, `KeepsIffGuarded` says exactly which steps break that,
  whatever the registry looks like, and `RunVerifiesIff` says so of whole runs: a
  creation or a link that opens over old content which does not verify under the new id
  (`CreateDuringDestruction`, `LinkDuringDestruction`), a creation over an empty store
  that a vault without its name still uses (`CreateBesideRepointed`), and a write that
  some vault over the store rejects. For a save this means a fetch that found a foreign
  private key (`SaveKeepsIff`), as a wrong password that happens to decrypt can
  (`WrongPasswordBreaks`). `Clients.dfy` gives rules under which none of this happens.

Where comments and code disagree the model follows the code:
`VaultService.ts:70` says that creation fails when the store exists, but
`munkey.ts:167-168` opens it; `VaultService.ts:90` promises a conflict for a used
nickname, but line 98 re-points it; `EncryptionCipher.ts:24-28` never maps a number
back to an algorithm, so the field is lost when a payload is unwrapped;
`serialize.ts:36` turns an unknown signature algorithm into SHA512.

## Model

| member | source | states |
|---|---|---|
| Locations.ParsePort | munkey/services/activity.ts:319-324 | `parseInt` undoes the printing of every port, negative ones and NaN included, and port text never holds a colon |
| Locations.ParsePrefix | munkey/services/activity.ts:319-324 | `parseInt` reads the digits a text starts with and stops at the first other character |
| Locations.ParseHex | munkey/services/activity.ts:319-324 | after `0x` it reads hexadecimal digits |
| Locations.ParseSpace | munkey/services/activity.ts:319-324 | white space in front does not matter |
| Locations.ParseSign | munkey/services/activity.ts:319-324 | one sign in front of the digits counts |
| Locations.DecodeKey | munkey/services/activity.ts:319-324 | decoding a key gives the device back if and only if its host has no colon |
| Locations.KeyInjective | munkey/services/activity.ts:165 | two devices with the same key are the same device, whatever their hosts look like |
| Locations.KeysDistinct | munkey/services/activity.ts:167-170 | a device list is free of repeats exactly when the keys the mask uses for it are |
| Locations.DeviceListRepeats | munkey/services/activity.ts:319-343 | whatever the keys, the list sent repeats a device if and only if two listed keys share the first field and the number the second parses to |
| Locations.DeviceListDistinct | munkey/services/activity.ts:338-343 | a peer list with keys of colon-free hosts is sent as a device list without repeats |
| Locations.ColonHostsRepeat | munkey/services/activity.ts:319-343 | counterexample: two keys of one host with a colon are sent as the same device twice |
| Crawls.UnmaskedInOrder | munkey/services/activity.ts:167-170 | the siblings still to ask are found location by location, in list order |
| Crawls.OneAnswer | munkey/services/activity.ts:157-183 | no answer changes nothing, garbage drops the entry, the device itself is neither stored nor expanded, any other document is stored, marks its list and queues the unmasked locations first |
| Crawls.CrawlMarks | munkey/services/activity.ts:150-184 | whatever the network answers, a finished crawl asked the root and exactly the locations it marked, and marked every list it was handed |
| Crawls.CrawlRequests | munkey/services/activity.ts:166-175 | a crawl makes at least one request for the root and one for each newly marked location, and exactly these if and only if no answer repeats a location that is not masked yet |
| Crawls.RunCounts | munkey/services/activity.ts:166-175 | at every moment of a crawl requests and queue have grown by at least as much as the mask, and by as much if and only if no answer so far repeats a location that was not masked |
| Crawls.CrawlReaches | munkey/services/activity.ts:166-175 | on a fixed network the mask gains exactly what the root reaches over expandable peers, although siblings are marked before any is explored |
| Crawls.ReplayIsOverlay | munkey/services/activity.ts:157-183 | the list after a crawl is the old one overridden at the asked locations: documents set, garbled ones dropped, silent ones and itself untouched |
| Crawls.CrawlExact | munkey/services/activity.ts:150-184 | the whole effect of a crawl from an empty mask: the overlay at the root and everything it reaches |
| Crowds.FinishedRun | munkey/services/activity.ts:150-184 | however the answers to any number of concurrent crawls interleave, each mask is what its root reaches and the shared list is the one sequential crawls leave |
| Crowds.Confluent | munkey/services/activity.ts:150-184 | two finished interleavings of the same crawls end with the same masks and the same list |
| Crowds.FinishedCounts | munkey/services/activity.ts:166-175 | on lists without repeats a crawl is served the same number of times, 1 plus the size of its mask, in every interleaving |
| Crowds.EveryRunFinishes | munkey/services/activity.ts:150-184 | on a fixed network every run of concurrent crawls, wherever it stands, can be continued until all are finished |
| Crowds.RunsAreBounded | munkey/services/activity.ts:166-175 | on lists without repeats no run makes more requests than one for each root and one for each location a root reaches, and it is finished exactly when it has made as many |
| Activity.ActivityService.SendLinkRequest | munkey/services/activity.ts:53-84 | one request meets the network as it is at that moment |
| Activity.ActivityService.Receive | munkey/services/activity.ts:157-170 | one answer acts on list and mask as one step of the work-list machine; what it marks was not marked before |
| Activity.ActivityService.PublishDevice | munkey/services/activity.ts:150-184 | the recursion sends the requests of the work-list machine, in its order, and ends on every finite universe of locations even if answers change for ever; the result is the root's document, if any |
| Activity.CrawledIs | munkey/services/activity.ts:150-184 | a recorded recursive crawl is a run of the work-list machine, and its requests alone explain the new list |
| Activity.CrawledAnswer | munkey/services/activity.ts:53-84 | the n-th answer of a crawl is what the network said at the n-th request |
| Activity.SettledCrawl | munkey/services/activity.ts:150-184 | on a network that stays as it is, the recursive crawl has exactly the effect of `CrawlExact` |
| Activity.ActivityService.Recrawl | munkey/services/activity.ts:114-120 | one crawl inside the loop disturbs neither the slots already passed nor the bound on those to come, and on a steady network has its exact effect |
| Activity.ActivityService.VisitSlot | munkey/services/activity.ts:111-120 | one turn of the loop on any network: a blank slot does nothing, a live one is yielded with the document listed at that moment, and exactly if that carries the wanted id one crawl runs from its decoded key, which explains all new requests and the new list |
| Activity.ActivityService.RestorePeer | munkey/services/activity.ts:110-122 | on any network requests and list are those of the turns, one after another at rising slots; the loop ends, even if answers change for ever, as long as no location answers now with a document, now with garbage; on a steady network exactly the entries carrying the id when reached are crawled, and the list is the old one overridden at what those crawls asked |
| Activity.WalkVisitsAll | munkey/services/activity.ts:110-122 | no location is yielded twice, and every location still listed was yielded |
| Activity.RestoreVisitsAll | munkey/services/activity.ts:110-122 | on a steady network one that was listed but not yielded had been dropped as garbled |
| Activity.ActivityService.GetDeviceList | munkey/services/activity.ts:319-343 | the decoded keys of the live entries, in list order |
| Registries.NamesNeverDangle | munkey/services/vault/VaultService.ts:207-210 | in every reachable state a name lookup succeeds exactly for mapped names and finds the database of the mapped id |
| Registries.LookupFinds | munkey/services/vault/VaultService.ts:207-210 | a lookup finds a database exactly if the name maps to its id, which is not empty |
| Registries.Replies | munkey/services/vault/VaultService.ts:59-142 | a used name or id is a conflict, an empty id a failure, else the vault opens under its own name and id; loading differs from creating in nothing, and linking a known id always opens it |
| Registries.OpeningEvents | munkey/services/vault/VaultService.ts:59-142 | a create, load or link of an unknown id gives its name a vault of its own, or changes nothing |
| Registries.DeleteEvents | munkey/services/vault/VaultService.ts:180-275 | both deletes end with the same registry, without the vault and its names; the waiting one changes it only when the destruction is done, and not if that fails |
| Registries.IntegralRun | munkey/services/vault/VaultService.ts:36-142 | under every interleaving of creates, links, loads and both deletes, nicknames lead to registered vaults and databases carry their own key |
| Registries.CreateThenDelete | munkey/services/vault/VaultService.ts:59-74 | a creation that opens adds one lookup and changes no other, deleting at once restores the registry, and a refused one changes nothing |
| Registries.LinkThenLookup | munkey/services/vault/VaultService.ts:92-100 | after a link the nickname means the vault, a known vault keeps its database, and every other lookup is unchanged |
| Registries.DeleteThenLookup | munkey/services/vault/VaultService.ts:189-194 | a delete ends the lookups that found the vault and only those |
| Registries.EntriesStay | munkey/services/vault/VaultService.ts:59-275 | no event replaces a live database, renames by anything but a link, or forgets anything but the deleted vault |
| Registries.AnchoredNext | munkey/services/vault/VaultService.ts:92-100 | one event keeps every live vault under its opening name if and only if it is not a link that gives that name to another vault |
| Registries.AnchoredRun | munkey/services/vault/VaultService.ts:59-275 | so along every run without such a link |
| Registries.FreshNeverRepoints | munkey/services/vault/VaultService.ts:76-91 | links under fresh nicknames, or ones that already mean the vault, never do that |
| Registries.StoresNeverShared | munkey/services/vault/VaultService.ts:59-100 | in such runs no two live vaults share a store and each is found under the name of its store |
| Registries.NamedNext | munkey/services/vault/VaultService.ts:92-100 | one event keeps every live vault reachable by some name if and only if it is not a link of a live vault under the only nickname of another |
| Registries.NamedRun | munkey/services/vault/VaultService.ts:59-275 | so along every run without such a link |
| Registries.StoresDistinctNext | munkey/services/vault/VaultService.ts:59-142 | one event keeps stores apart if and only if it does not open a vault under the store name of a live one |
| Registries.RepointingSharesStore | munkey/services/vault/VaultService.ts:98 | counterexample: a re-pointed nickname leaves a vault with no name and its store opened twice |
| Vaults.NamesOfExactly | munkey/services/vault/VaultService.ts:222-228 | the collected names are exactly those mapped to the vault, each once |
| Vaults.NamesInOrder | munkey/services/vault/VaultService.ts:189-193 | they come in the order of the map |
| Vaults.WithoutContents | munkey/services/vault/VaultService.ts:189-193 | blanking the nicknames of a vault removes exactly its entries from the map |
| Vaults.WithoutKeepsOrder | munkey/services/vault/VaultService.ts:189-193 | the other entries keep their values and their order |
| Vaults.VaultService.AddEntry | munkey/services/vault/VaultService.ts:36-40 | both maps gain the entry |
| Vaults.VaultService.Create | munkey/services/vault/VaultService.ts:59-74 | conflict, failure or registration; a creation is recorded exactly when it opens and an admin service is attached |
| Vaults.VaultService.Link | munkey/services/vault/VaultService.ts:92-100 | a known id gains a nickname, an unknown one is created; only the latter is recorded |
| Vaults.VaultService.Load | munkey/services/vault/VaultService.ts:116-142 | conflict, failure or registration, never recorded |
| Vaults.VaultService.UseAdminService | munkey/services/vault/VaultService.ts:156-166 | the records are loaded in order, each into the registry the ones before it left; nothing else runs meanwhile, as the listeners start afterwards (munkey/configure.ts:81-84) |
| Vaults.VaultService.GetVaultByName | munkey/services/vault/VaultService.ts:207-210 | the lookup of `NamesNeverDangle` |
| Vaults.VaultService.FinishDeleteVaultById | munkey/services/vault/VaultService.ts:189-196 | deleting while iterating removes exactly the vault and its nicknames and returns those nicknames |
| Vaults.VaultService.DeleteThroughHandle | munkey/services/vault/VaultService.ts:221-253 | collecting first leaves slot for slot the same two maps as deleting while iterating |
| Admin.AdminService.Initialize | munkey/services/admin.ts:17-37 | an empty list is stored unless there is a document |
| Admin.AdminService.RecordRead | munkey/services/admin.ts:39-47 | a put is prepared from the revision read, unless there is no document or the id is listed |
| Admin.AdminService.RecordPut | munkey/services/admin.ts:48-52 | the put replaces exactly the revision it names; a losing one changes nothing |
| Admin.ReadPrepares | munkey/services/admin.ts:39-51 | a put goes out exactly for a record no stored one shares the id of, with the revision and the whole list that were read |
| Admin.StalePutLoses | munkey/services/admin.ts:48-52 | a put naming any revision but the stored one fails and changes nothing; the right one stores what was read and the record behind it |
| Admin.TaskSteps | munkey/services/admin.ts:39-57 | a recording ends with a read that prepares no put, or with its put |
| Admin.WinsIffUndisturbed | munkey/services/admin.ts:39-57 | in every run a put wins if and only if no other put won since its read; a losing one leaves the record as it was |
| Admin.InitializedKeeps | munkey/services/admin.ts:17-37 | a stored record is kept, only a missing one becomes an empty list |
| Admin.AdminRun | munkey/services/admin.ts:39-57 | under every interleaving of recordings the list is append-only with distinct ids and grows by exactly the records whose put won, one revision each |
| Restarts.RestartLoadsFirsts | munkey/services/vault/VaultService.ts:159-163 | from a list with distinct non-empty ids an empty registry loads exactly the first record for each name |
| Restarts.Boot | munkey/configure.ts:81-83 | initializing the record, reading it and loading it takes the two objects through the restart step |
| Restarts.OpeningIsRecorded | munkey/services/vault/VaultService.ts:59-100 | every vault that a create or a link opens starts to be recorded under its name and id, and nothing else does |
| Restarts.DeleteAndRestart | munkey/services/vault/VaultService.ts:246-270 | a delete touches neither the record nor the recordings in flight; a restart keeps the record, forgets those and rebuilds the registry |
| Restarts.LedgerRun | munkey/services/vault/VaultService.ts:59-74 | in runs without deletes, recorded and soon-to-be-recorded names stay pairwise distinct and every one of them is live |
| Restarts.RestartRestores | munkey/services/vault/VaultService.ts:116-166 | after any run without deletes, across restarts, another restart registers every recorded vault under its name and id over the database it had, and nothing else |
| Restarts.RestartAlwaysLoadsFirsts | munkey/services/admin.ts:39-71 | after any run, deletes included, the records have distinct non-empty ids and a restart loads the first of each name |
| Restarts.SurvivesIffFirst | munkey/services/vault/VaultService.ts:116-163 | after any run a recorded vault is registered by a restart if and only if its record is the first of its name, and then under that name |
| Restarts.DeletedReturnsIff | munkey/services/vault/VaultService.ts:246-270 | after any run, a vault that is deleted is back after a restart if and only if its record is the first of its name |
| Restarts.DeletedVaultReturns | munkey/services/vault/VaultService.ts:246-270 | counterexample: after a delete a name is recorded twice and the restart loads the deleted vault instead of the live one |
| Bytes.LittleEndian | munkey/encryption/EncryptionCipher.ts:61-69 | the lowest byte comes first, and negative integers are written in two's complement |
| Bytes.ReadsBack | munkey/encryption/EncryptionCipher.ts:61-69 | reading a signed 32-bit little-endian integer undoes writing it |
| Bytes.WritesBack | munkey/encryption/EncryptionCipher.ts:47-55 | writing undoes reading for every four bytes |
| Bytes.SliceWithin | munkey/encryption/EncryptionCipher.ts:50-57 | `slice` takes bounds within the buffer as they are and those beyond as its end |
| Bytes.SliceNegative | munkey/encryption/EncryptionCipher.ts:50-57 | negative bounds count from the end, not beyond the start |
| Codec.FillHeader | munkey/encryption/serialize.ts:96-101 | four writes at fixed offsets fill the header with the four encodings in order; a value out of range throws |
| Codec.WrapPayload | munkey/encryption/EncryptionCipher.ts:61-69 | the payload frame, or an error when a part outgrows the 32-bit length |
| Codec.Serialize | munkey/encryption/serialize.ts:96-105 | the dataset frame, or an error when a part outgrows the 32-bit length |
| Codec.JoinKey | munkey/encryption/EncryptionCipher.ts:145-154 | the key and data frame, or an error when a part outgrows the 32-bit length |
| Codec.WrappedLayout | munkey/encryption/EncryptionCipher.ts:61-69 | wrapping succeeds if and only if type and sizes fit 32 bits; type, a zero, the two sizes, seed and ciphertext stand in this order |
| Codec.SerializedLayout | munkey/encryption/serialize.ts:96-105 | serializing succeeds if and only if the sizes fit; version 0, algorithm 0, the two sizes, signature and payload stand in this order |
| Codec.JoinedLayout | munkey/encryption/EncryptionCipher.ts:145-154 | joining succeeds if and only if the sizes fit; key and data stand each behind its size |
| Codec.UnwrapWrap | munkey/encryption/EncryptionCipher.ts:47-69 | unwrapping inverts wrapping on type, seed and ciphertext, whatever follows the frame |
| Codec.UnwrapFrame | munkey/encryption/EncryptionCipher.ts:47-59 | any buffer announcing parts that are all there unwraps to its type and just those parts |
| Codec.SplitFrame | munkey/encryption/EncryptionCipher.ts:133-143 | any buffer announcing a key and data that are all there splits into just those |
| Codec.DeserializeFrame | munkey/encryption/serialize.ts:43-54 | any buffer announcing version 0 and parts that are all there deserializes to just those parts |
| Codec.DeserializeSerialize | munkey/encryption/serialize.ts:96-117 | deserializing inverts serializing, whatever follows the frame |
| Codec.SplitJoin | munkey/encryption/EncryptionCipher.ts:133-154 | splitting inverts joining, whatever follows the frame |
| Codec.EncodersInjective | munkey/encryption/EncryptionCipher.ts:61-69 | no two payloads, datasets or key and data pairs share a frame |
| ClientCodec.SerializePayload | munkey-app/MunkeyClient/Contexts/VaultContent.cs:100-113 | the stream holds byte for byte what `wrapPayload` returns for payload type 0 |
| ClientCodec.SerializeDataset | munkey-app/MunkeyClient/Contexts/VaultContent.cs:151-164 | the stream holds byte for byte what the service's `serialize` returns |
| ClientCodec.WriteKeyAndData | munkey-app/MunkeyClient/Contexts/AuthenticationContext.cs:43-52 | the cipher stream is fed byte for byte what `joinKey` returns |
| ClientCodec.StreamAgreement | munkey-app/MunkeyClient/Contexts/VaultContent.cs:100-164 | client and service encode alike exactly for frames that a memory stream can hold |
| ClientCodec.DeserializePayload | munkey-app/MunkeyClient/Contexts/VaultContent.cs:115-128 | the reads at the moving cursor give the announced arrays, padded with zeros when the stream ends early |
| ClientCodec.DeserializeDataset | munkey-app/MunkeyClient/Contexts/VaultContent.cs:166-183 | the reads give version, signature and payload, cut short when the stream ends early |
| ClientCodec.ReadKeyAndData | munkey-app/MunkeyClient/Contexts/AuthenticationContext.cs:81-84 | the reads give key and data; a key cut short leaves no length to read |
| ClientCodec.PayloadAgreement | munkey/encryption/EncryptionCipher.ts:47-59 | the two payload decoders agree on a buffer if and only if its header is cut short or the frame is all there |
| ClientCodec.TruncatedPayload | munkey-app/MunkeyClient/Contexts/VaultContent.cs:115-128 | of a payload cut short the client keeps the announced sizes: the bytes there are, seed first, then zeros |
| ClientCodec.DatasetAgreement | munkey/encryption/serialize.ts:107-117 | the two dataset decoders agree if and only if the buffer is too short for a version, or has version 0 and no negative size |
| ClientCodec.KeyAndDataAgreement | munkey/encryption/EncryptionCipher.ts:133-143 | the two key and data decoders agree on all buffers but those with a whole key followed by a negative size |
| ClientCodec.ClientReadsFrames | munkey-app/MunkeyClient/Contexts/VaultContent.cs:115-183 | the client reads from every frame of the service the fields that went in, whatever follows it |
| Sealing.SealSucceedsIff | munkey/server/ShellCommandServer.ts:180-185 | sealing succeeds if and only if private key, text, seed, ciphertext, payload and signature fit 32-bit sizes and the key can sign; it yields the signed frame of the encrypted key and text |
| Sealing.OpenSeal | munkey/server/ShellCommandServer.ts:142-185 | what was sealed verifies under every id that accepts the key and opens, under the same password, to the same private key and entries |
| Sealing.OpenWith | munkey/server/ShellCommandServer.ts:148-162 | whatever the password, what opening finds is decided by one decryption of the ciphertext that was sealed |
| Sealing.SealVerifies | munkey/encryption/serialize.ts:66-90 | what was sealed verifies under an id exactly if that accepts the private key, provided the id treats all signatures of this key alike |
| Shell.ShellCommandServer.VaultNew | munkey/server/ShellCommandServer.ts:56-86 | the steps of `vault new` and `onCreateVault`: refused, registered without content, or stored and selected |
| Shell.ShellCommandServer.SealContent | munkey/server/ShellCommandServer.ts:180-185 | the encoders in their order compute the sealed bytes or throw |
| Shell.ShellCommandServer.VaultSet | munkey/server/ShellCommandServer.ts:126-193 | read, verify, decrypt, split, change one entry, seal with the recovered key, store; every early return changes nothing |
| Shell.ShellCommandServer.VaultGet | munkey/server/ShellCommandServer.ts:195-242 | the entry, or why there is none; an empty value reads as none |
| Shell.CreateRefusesForged | munkey/server/CommandServer.ts:43-47 | initial content that does not verify under the id is refused, whoever sends it, and nothing changes |
| Shell.CreateAccepts | munkey/server/CommandServer.ts:35-57 | verified content creates the vault if and only if name and id are free and its store is empty; over a store with a document the vault is registered and the document kept; no other name or store is touched |
| Shell.NewSelects | munkey/server/ShellCommandServer.ts:66-83 | the vault becomes the active one if and only if it could be sealed, created and announced |
| Shell.UnreadAnswers | munkey/server/ShellCommandServer.ts:131-177 | with no vault selected, a name that no longer resolves, no content, a bad signature, a wrong password or corrupt data both commands change nothing and say so |
| Shell.NewRefines | munkey/server/ShellCommandServer.ts:56-86 | a new vault stands for the empty map and holds its own private key |
| Shell.SetRefines | munkey/server/ShellCommandServer.ts:126-193 | a `set` is stored if and only if the changed map can be sealed (`Sealable`); it then changes one entry and keeps the private key, and otherwise changes nothing |
| Shell.SetLeavesOthers | munkey/server/ShellCommandServer.ts:185 | a `set` changes no registry entry, and the document of a store if and only if it is the active vault's and the command was answered as stored |
| Shell.SessionIsMap | munkey/server/ShellCommandServer.ts:56-242 | in any run of `set` and `get` after a successful `new`, each `set` is stored if and only if the map it leads to can be sealed, each `get` shows the last value stored for its key unless empty, and the document opens to exactly the values stored last and the first private key |
| Storage.VaultDatabase.SetContent | munkey/services/vault/VaultDatabase.ts:54-73 | undisturbed, a write succeeds and makes one revision |
| Storage.VaultDatabase.Initialize | munkey/services/vault/VaultDatabase.ts:75-78 | undisturbed, it writes exactly when there is no content, and says so |
| Storage.ChainRun | munkey/services/vault/VaultDatabase.ts:54-73 | under every interleaving the writes that took effect form one chain, each replacing exactly the revision it read, and the calls that returned true are those in the chain |
| Storage.TrueResultsAreRevisions | munkey/services/vault/VaultDatabase.ts:54-78 | as many calls return true as there are revision steps |
| Storage.LosersChangeNothing | munkey/services/vault/VaultDatabase.ts:63-71 | a call that returns false changes nothing |
| Storage.InitializeChecks | munkey/services/vault/VaultDatabase.ts:75-78 | `initialize` ends with false where there is content and goes on to write where there is none |
| Storage.Progress | munkey/services/vault/VaultDatabase.ts:54-73 | along every run the chain only grows, by one write for each revision, and while it does not the document stays |
| Storage.WinsIffUndisturbed | munkey/services/vault/VaultDatabase.ts:55-58 | in every run a write returns true if and only if no other write took effect since its revision read, and then it is the next in the chain |
| Storage.InitializeCreatesIff | munkey/services/vault/VaultDatabase.ts:75-78 | an `initialize` that found nothing prepares a creating put if and only if no write took effect between its check and its revision read, and otherwise, if it wins, replaces content |
| Storage.InitializeOverwrites | munkey/services/vault/VaultDatabase.ts:75-78 | counterexample: a write between the check and the revision read of `initialize` is replaced |
| Connections.ExactRun | munkey/services/connection.ts:41-120 | over every run of publishes, removals and late errors the uncancelled tokens are exactly the stored ones |
| Connections.OneTokenPerPlace | munkey/services/connection.ts:52 | no two live tokens are for the same vault and location |
| Connections.LatestRun | munkey/services/connection.ts:55-92 | over every run a stored token is the last one created for its place |
| Connections.PublishAnswers | munkey/services/connection.ts:41-99 | publishing throws exactly for a known place without a callback; otherwise it returns the one live token of the place and touches no other |
| Connections.RemoveAnswers | munkey/services/connection.ts:101-111 | false without a map for the vault, an error for an unknown place under a known vault, else the token of the place is cancelled and dropped, and no other |
| Connections.LateErrorCancelsNewer | munkey/services/connection.ts:82-85 | in every reachable table an error of a cancelled token cancels the token stored at its place, which was created later, or nothing |
| Connections.ListedExactly | munkey/services/connection.ts:129-138 | the nested listing names every stored pair, once |
| Connections.ListedInOrder | munkey/services/connection.ts:129-138 | vaults are listed in the order of the outer map |
| Connections.PairedInOrder | munkey/services/connection.ts:131-136 | locations are listed in the order of the inner map |
| Connections.ConnectionService.GetOrCreateMap | munkey/services/connection.ts:113-120 | the very map object the table holds for the vault, or a fresh empty one that it holds from then on |
| Connections.ConnectionService.Update | munkey/services/connection.ts:92 | changing the shared map object changes the table at that vault and nowhere else |
| Connections.ConnectionService.PublishDatabaseConnection | munkey/services/connection.ts:41-99 | the object's table and result are those of `PublishAnswers` |
| Connections.ConnectionService.RemoveRemoteConnection | munkey/services/connection.ts:101-111 | the object's table and result are those of `RemoveAnswers` |
| Connections.ConnectionService.GetAllConnections | munkey/services/connection.ts:129-138 | every live connection, listed exactly once |
| StoredContent.ByNameSends | munkey/server/CommandServer.ts:132-146 | content set by name goes to the vault of that name, if and only if it verifies there |
| StoredContent.SaveSends | munkey/server/ShellCommandServer.ts:179-185 | a save ends the client's work on what it fetched, and sends the sealed content to the database it came from, or nothing |
| StoredContent.StepsTouch | munkey/server/CommandServer.ts:113-151 | a fetch touches one client's draft, a landing write its store and only if it wins, a destruction its store and the handles on it |
| StoredContent.DeleteTouches | munkey/server/CommandServer.ts:73-83 | a delete unregisters the vault of that name, if there is one, and its store is destroyed later |
| StoredContent.NextCreate | munkey/server/CommandServer.ts:35-57 | a creation with any bytes, from the shell or a remote client, registers and stores only what verifies |
| StoredContent.CreateKeepsIff | munkey/server/CommandServer.ts:35-57 | from any state whose live contents verify, a creation with any bytes keeps that if and only if, when the bytes verify and the vault registers, its store holds content that verifies under the new id, or is empty and every other live vault over it accepts the bytes |
| StoredContent.LinkKeepsIff | munkey/services/vault/VaultService.ts:92-100 | a link keeps it if and only if, when it opens a vault, the store is empty or its content verifies under the linked id |
| StoredContent.LandedKeepsIff | munkey/server/CommandServer.ts:141-146 | a write that lands keeps it if and only if every live vault over the store accepts the content |
| StoredContent.KeepsIffGuarded | munkey/server/CommandServer.ts:35-151 | every step keeps it if and only if its guard, on registry and documents before the step, holds; fetches, sends, deletes and destructions need none |
| StoredContent.RunVerifiesIff | munkey/server/CommandServer.ts:35-151 | along every run all live contents verify at all times if and only if every step is guarded |
| StoredContent.SaveKeepsIff | munkey/server/ShellCommandServer.ts:142-185 | a fetch that opens, with whatever password, and a save that lands keep it if and only if the key found is a private key of every live vault over the store, provided these ids treat its signatures alike |
| StoredContent.CreateDuringDestruction | munkey/server/CommandServer.ts:73-83 | counterexample: a creation over a store still being destroyed |
| StoredContent.LinkDuringDestruction | munkey/services/vault/VaultService.ts:92-100 | counterexample: a link that opens a remote vault over such a store |
| StoredContent.NamelessRuns | munkey/services/vault/VaultService.ts:98 | a run of a link, a creation, a re-pointing link and a delete leads to a live vault over an empty store whose name is free |
| StoredContent.CreateBesideRepointed | munkey/services/vault/VaultService.ts:59-74 | counterexample: from there a creation over that store, which is empty and which nobody destroys, leaves the old vault with content it rejects |
| StoredContent.WrongPasswordBreaks | munkey/server/ShellCommandServer.ts:154-185 | counterexample: a wrong password that decrypts finds a foreign key, and saving leaves content that does not verify |
| Clients.SoundNext | munkey/server/CommandServer.ts:35-151 | a step of a client that opens no store being destroyed and takes no opening name keeps registry, documents and work in progress sound under any judgement its contents meet |
| Clients.SoundRun | munkey/server/CommandServer.ts:35-151 | so over every run in which moreover each fetch that opens finds a private key of the vault, contents stored and on their way verify under their ids |
| Clients.StoredContentVerifies | munkey/server/CommandServer.ts:35-151 | after such a run every live vault holds nothing, or content that deserializes and verifies under its id; no law of cryptography is needed |
| Clients.OwnPasswordFindsKey | munkey/server/ShellCommandServer.ts:142-172 | opening content under the password it was sealed with finds a private key of the vault |
| Clients.LockedRun | munkey/server/ShellCommandServer.ts:56-185 | over every run in which vaults are created with content sealed under their password, fetches use it or do not open, and saves go back to the vault fetched, contents stored and on their way are sealed under the password of their vault |
| Clients.PasswordOpens | munkey/server/ShellCommandServer.ts:142-185 | after such a run what a live vault holds opens under its password, to a private key of the vault |
| Clients.RestartKeepsContent | munkey/services/vault/VaultService.ts:156-166 | a restart after a run without deletes keeps all contents verified |

## Left out

- HTTPS, mDNS, gRPC and express routes, the terminal, logging and the WinUI app: input and output.
- AES, PBKDF2, ECDSA, SHA512 and JSON text: functions with laws; entry names of `Object.prototype` members and text that is not ASCII are excluded with them.
- PouchDB replication, conflict winners, the first `replicate.from` and the rejection of badly signed remote revisions (munkey/services/connection.ts:55-81): library behaviour; the model's stores are written by their own clients only, and revisions are numbered.
- Devices in peer lists stand for their location keys, which `KeyInjective` justifies; hosts that are not strings and ports that are neither integers nor NaN, which the validator lets through (munkey/discovery.ts:40-44), are not modelled, nor are ports beyond the exact integers of a double.
- Activity.ActivityService.RestorePeer: nothing is said of networks where one location answers by turns with a document and with garbage, which drops its entry and appends it again.
- Crowds.Confluent: concurrent crawls on a fixed network, because on a changing one the order of requests decides what they hear.
- Clients.StoredContentVerifies: runs of clients that keep to the rules; every other run is covered by the exact condition in `StoredContent.RunVerifiesIff`. Runs start on an empty disk, `deleteVaultById` has no caller in the repository, so deletes are those of `onDeleteVault`, and restarts are treated by themselves in `RestartKeepsContent`.
- Storage.TrueResultsAreRevisions: single-document histories without remote changes or deletion of the document.
- The limit on the ciphertext a C# memory stream can hold, and the runtime's own largest array size.
- The command loop (munkey/server/ShellCommandServer.ts:431-451) handles one line at a time, so a session is a sequence of commands; lines that arrive while a command runs are dropped there and do not appear.
- `republish`, removal on mDNS down, `resolveVaultName`, `getActiveVaults`, `vault login`, `vault link` and `vault list`: easy consequences of the lookups.
- The C# `VaultContent` indexer and its JSON object: a plain dictionary.
