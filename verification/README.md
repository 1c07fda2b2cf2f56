# Verified models of the CA database, the AES generators, the streaming signer and three option parsers

This project models the stateful parts of the monorepo and proves what they keep over whole runs:

- **The certificate authority database** (`tongsuo/apps/ca.c`, with the database, index and rename code it
  calls in `tongsuo/crypto/txt_db/txt_db.c` and `tongsuo/apps/lib/apps.c`). `Policy`, `RevInfo`, `Serial` and
  `TxtDb` cover the policy scan, the revocation text, serial texts and the index file; `CaSpec` gives issue,
  revoke and expire as functions and the invariant of every sequence of them; `CaDb` is the database object with
  its two indexes, proved against `CaSpec`; `CaBatch` is the request loop; `CaDisk` and `CaRuns` are the commit
  protocol and whole histories of processes. In these any call may fail, the writes whose results the code does
  not look at may fail unnoticed, the machine may stop after any call, and the operator may put back files that
  were kept aside; `CaCrl` builds the CRL.
- **The seed expander and the AES-256 CTR_DRBG** (`pqmagic/utils/rng.c`): `SeedExpander` and `Drbg` refine the
  buffered, byte-carrying code to an ideal block stream and to NIST SP 800-90A Rev. 1, sections 10.2.1.2,
  10.2.1.3.1 and 10.2.1.5.1.
- **The streaming signature context** (`providers/pqmagic-algorithms/pqmagic_prov.c`): `SigCtx`.
- **The signer, key and key-option command line** (`tongsuo/apps/cms.c`): `CmsOptions`, and `KeyOptions` for
  the list of key options.
- **The section-list scanner** (`tongsuo/apps/cmp.c`): `SectionList`; **the hex reader and printer**
  (`tongsuo/apps/enc.c`): `Hex`.

Library code enters as parameters: AES, SM3 and ML-DSA-44 are arbitrary functions; `CaSpec.Library` holds the
time, object-identifier and name-printing functions. `CaSpec.Sane` states what is asked of them: accepted times
and identifiers contain no newline, no comma (UTCTime) and no closing backslash, and printed names contain no
newline. `SigCtx.KeyPairCorrect` is the correctness of ML-DSA for one key pair, used by one lemma only. Prompts,
signature checks on requests, certificate extensions and the clock are inputs of each request or step.

Results where the code does less than one might expect, each with its exact condition:

- A written index file reads back as itself exactly when no field holds a newline, no field but the last ends in
  a backslash, and the first does not start with `#` (`TxtDb.ReadsBackIffStorable`,
  `TxtDb.BackslashSwallowsSeparator`). Every row this program writes is of that kind (`CaSpec.RunKeeps`).
- `conf_get_string` is meant to take the value of the last listed section that defines a name. The library
  falls back to `[default]` for each section separately, so a value there hides one in an earlier listed
  section (`SectionList.LastSectionWinsIff`, `SectionList.DefaultHidesEarlierSection`).
- Revoking a certificate that is not in the database adds a row with that certificate's own serial number, which
  keeps the serial file ahead exactly when the number is below it (`CaRuns.UnlistedRevocation`). Histories
  therefore revoke certificates that are listed or whose number is below the next one; the claim that every row
  added has its certificate file also needs the file of an unlisted one to be there (`CaRuns.Traceable`).
- A serial number can be given to two certificates. With k calls of the commit of n certificates passed before
  one is seen to fail, a certificate that the run wrote has a number at or above the live serial exactly when some
  certificate was written and k <= 6 + 2n, or k = 7 + 2n and the rename that restores the serial file works
  (`CaRuns.ExposedIffWindow`). The next process that issues anything then gives the first of those numbers, and
  its file, out again (`CaRuns.NumberGivenAgain`). It never clashes with the index
  (`CaRuns.ResumedRunNeverClashes`).
- `save_serial` does not look at whether its write worked. A commit loses the serial number exactly when that
  write failed and the empty file was renamed into place (`CaDisk.SerialLostIff`).
- Without a readable attribute file `load_index` falls back on the configured `unique_subject`. A sound disk then
  loads exactly when names need not be unique or are (`CaRuns.SoundLoads`), and that they stay unique can be
  claimed only if it is configured (`CaRuns.HistorySound`).
- `do_revoke` copies the expiry of an unlisted certificate into its row unread, and from 2050 on the clock prints
  a GeneralizedTime, which `unpack_revinfo` refuses. The rows that a revocation leaves pass the next load exactly
  when the clock printed a UTCTime, if a row was marked, and the expiry is readable, if a row was added
  (`CaSpec.RevokedLoadsIff`).
- One serial number can stand in a CRL twice, since the index compares texts and the load check lets `0A` and
  `0a` both pass (`CaCrl.TwoSpellings`). The CRL is strictly ordered exactly when no two revoked rows spell one
  number (`CaCrl.CrlStrictlyOrdered`), which holds for every file this program wrote itself
  (`CaCrl.RunCrlOrdered`, `CaCrl.HistoryCrlOrdered`).
- A `-signer` without a key followed by a key meant for the next signer is paired the other way; this is the
  only such case (`CmsOptions.ReadAsMeantIffUnambiguous`).
- A key option read under `-encrypt` can end up with a signer (`CmsOptions.MixingOperationsMisplaces`). Signers
  find their own options exactly when each option read under `-encrypt` is harmless: its index is not one of a
  signer, or that signer's options, and there are some, were all read before an option of another index that
  precedes it; and it does not stand between two options of one signer (`CmsOptions.OptionsBelongToPairs`). The
  dual holds for recipients, those named after the options included (`CmsOptions.OptionsBelongToRecipients`,
  `CmsOptions.TrailingRecipientMisplaced`).
- A fresh signature context takes messages of up to 2^63 bytes and refuses every longer one
  (`SigCtx.FreshAcceptsExactly`). Any context takes exactly what the largest doubling of its capacity holds, so
  a duplicate, whose capacity is what it copied, may take more (`SigCtx.DuplicateContinues`,
  `SigCtx.CopyOutgrowsOriginal`).

## Model

| member | source | states |
|---|---|---|
| Bytes.IncrementIsPlusOne | pqmagic/utils/rng.c:159-166 | the byte-carry loop is addition of one modulo 256^n, for every width |
| Bytes.ToBEMod | pqmagic/utils/rng.c:159-166 | the low n bytes of a number are the number modulo 256^n, so the counters wrap at 2^128 and 2^32 |
| Bytes.IncrementFrom | pqmagic/utils/rng.c:90-97 | in place, the counter bytes become the incremented ones and nothing before them changes |
| SeedExpander.CounterBlockInjective | pqmagic/utils/rng.c:38-46 | AES inputs differ whenever diversifier, length bound or block number differ |
| SeedExpander.RequestsReadTheStream | pqmagic/utils/rng.c:60-102 | over any request list, the bytes returned are one stretch of the ideal stream, consumed plus remaining is constant, and once a byte was returned some remain |
| SeedExpander.SplittingIsInvisible | pqmagic/utils/rng.c:60-102 | two request lists on one seed return prefixes of the same stream; what is returned, if anything, is shorter than maxlen |
| SeedExpander.StreamIsBlocks | pqmagic/utils/rng.c:86-97 | block i of the stream is AES of diversifier, maxlen and block number, each big-endian |
| SeedExpander.ReplyCode | pqmagic/utils/rng.c:66-69 | after any requests, -2 for no buffer, -3 when the bytes given out and asked for reach maxlen, else 0 and as many bytes as asked |
| SeedExpander.ServedInFull | pqmagic/utils/rng.c:60-102 | a list of requests is served in full if and only if each has a buffer and together they stay below what remains |
| SeedExpander.InitialBlock | pqmagic/utils/rng.c:38-46 | the shifted length bytes spell maxlen and the block number starts at zero |
| SeedExpander.Expander.Init | pqmagic/utils/rng.c:25-52 | maxlen of 2^32 or more is refused with nothing changed; otherwise a fresh stream of that setup begins |
| SeedExpander.Expander.Expand | pqmagic/utils/rng.c:60-102 | the reply and new state are those of the ideal stream; a rejected request changes nothing; nothing is written past the request |
| SeedExpander.Expander.Deliver | pqmagic/utils/rng.c:72-99 | the copy loop delivers exactly the next bytes of the stream and terminates although a pass may copy nothing |
| SeedExpander.Expander.Refill | pqmagic/utils/rng.c:86-97 | one more block: the buffer is its encryption and the counter names the next one |
| SeedExpander.Expander.InputsDistinct | pqmagic/utils/rng.c:31-97 | at most 2^28 blocks are made, so the number never carries into the length field, and no AES input repeats |
| Drbg.KeyStreamCounter | pqmagic/utils/rng.c:157-167 | after n rounds V stands at V + n modulo 2^128 |
| Drbg.GenerateBytes | pqmagic/utils/rng.c:151-182 | output byte i is byte i mod 16 of AES(Key, V + 1 + i/16) |
| Drbg.ShorterIsPrefix | pqmagic/utils/rng.c:151-182 | a shorter output is a prefix of a longer one from the same state |
| Drbg.StateSeesOnlyBlocks | pqmagic/utils/rng.c:178-179 | the new Key and V depend only on the old ones and the number of blocks |
| Drbg.XorAt | pqmagic/utils/rng.c:144 | a bit of the mixed byte is set if and only if exactly one of the two is |
| Drbg.UpdateBytes | pqmagic/utils/rng.c:184-209 | the new key is AES(Key, V+1) and AES(Key, V+2), the new V is AES(Key, V+3), each byte mixed with that of the data |
| Drbg.InstantiateBytes | pqmagic/utils/rng.c:135-149 | byte by byte, key and V are those of Update from zero with entropy mixed with personalization |
| Drbg.GenerateState | pqmagic/utils/rng.c:178-179 | after n bytes, key and V are the 48 bytes of key stream that follow the blocks used |
| Drbg.UpdateInPlace | pqmagic/utils/rng.c:184-209 | Key and V become those of SP 800-90A Update; absent data acts as 48 zero bytes |
| Drbg.Generator.constructor | pqmagic/utils/rng.c:135-149 | Instantiate without derivation function; an absent personalization string acts as zeros |
| Drbg.Generator.RandomBytes | pqmagic/utils/rng.c:151-182 | output and new state are those of SP 800-90A Generate, for every length the int offset can reach |
| Drbg.Generator.Fill | pqmagic/utils/rng.c:157-177 | whole blocks then the cut last one are the key stream, and V has advanced by the blocks used |
| Hex.PrintHex | tongsuo/apps/enc.c:627-657 | the printing loops print each byte as two upper-case digits, high digit first |
| Hex.SetHex | tongsuo/apps/enc.c:733-761 | fails exactly when one of the first 2*size characters is not hex; the array holds the digits before the first such one, padded with zero digits |
| Hex.ReadUndoesPrint | tongsuo/apps/enc.c:627-657 | reading what was printed gives the bytes back, for every byte string |
| Hex.DigitIs | tongsuo/apps/enc.c:627-657 | printed digits are 0 to 9 and upper-case A to F |
| Hex.DigitRead | tongsuo/apps/enc.c:749-753 | the 22 hex digits are read in either case with the same value, and nothing else is |
| Serial.PackedIsNumber | tongsuo/apps/enc.c:733-761 | the bytes read spell the number of the digits, moved left by the digits missing |
| Serial.SerialRoundTrip | tongsuo/apps/ca.c:1845-1848 | the integer read back from a stored serial text is the one that was stored, zero and negative ones included |
| Serial.SerialTextOk | tongsuo/apps/ca.c:764-782 | every stored serial text passes the load check on serial texts |
| Serial.SerialOkExactly | tongsuo/apps/ca.c:764-782 | a text passes the load check if and only if it is, in either case, one or more printed bytes, perhaps with a minus sign |
| Serial.SerialsNeverClash | tongsuo/apps/lib/apps.c:1424-1432 | texts of two serial numbers compare equal in the index exactly when the numbers are equal |
| Serial.KeyDeterminesValue | tongsuo/apps/lib/apps.c:1424-1432 | texts equal past their leading zeros denote the same number |
| Serial.ContentPrinted | tongsuo/apps/ca.c:1123-1152 | for a serial number that is not negative, the certificate file name spells the same text as the database row |
| TxtDb.SplitLine | tongsuo/crypto/txt_db/txt_db.c:83-108 | the field loop with its escape flag is the field-by-field split |
| TxtDb.SplitExactly | tongsuo/crypto/txt_db/txt_db.c:83-108 | a line splits into a record if and only if it is that record as it would be written, perhaps with one tab too many at its end |
| TxtDb.ReadSkips | tongsuo/crypto/txt_db/txt_db.c:61-76 | comment lines and what follows the last newline are skipped |
| TxtDb.ReadLine | tongsuo/crypto/txt_db/txt_db.c:61-114 | any other line gives one record, in order, and one that does not split fails the file |
| TxtDb.WrittenReadsBack | tongsuo/crypto/txt_db/txt_db.c:187-232 | storable records written out are read back unchanged, tabs and all |
| TxtDb.ReadIsStorable | tongsuo/crypto/txt_db/txt_db.c:20-125 | the reader returns only records that can be stored |
| TxtDb.ReadsBackIffStorable | tongsuo/crypto/txt_db/txt_db.c:187-232 | a written database reads back as itself if and only if every record is storable |
| TxtDb.RereadIsStable | tongsuo/crypto/txt_db/txt_db.c:20-125 | whatever was read survives being written and read again |
| TxtDb.BackslashSwallowsSeparator | tongsuo/crypto/txt_db/txt_db.c:205-217 | a field ending in a backslash is lost on rereading |
| Policy.NextIndex | tongsuo/crypto/x509/x509name.c:71-90 | the next entry of a type past a position, with none of that type in between |
| Policy.FindInCa | tongsuo/apps/ca.c:1670-1696 | finds an equal CA entry exactly when there is one, and otherwise says whether the type exists at all |
| Policy.ScanItem | tongsuo/apps/ca.c:1632-1712 | one policy line complains as its kind demands, and without complaint selects the request entries of its type in order |
| Policy.BuildSubject | tongsuo/apps/ca.c:1622-1713 | succeeds exactly when no line complains, then builds the entries of all pairs of a line and a request entry of its type, in order; otherwise reports the first complaint |
| Policy.VerdictExactly | tongsuo/apps/ca.c:1632-1712 | a line is met if and only if attribute and value are known, a supplied or match type occurs in the request and every request entry of a match type stands in the CA name; and when each complaint is made |
| Policy.SelectedExactly | tongsuo/apps/ca.c:1622-1713 | the entries taken are those of all pairs of a policy line and a request entry of its type, in lexicographic order of the pairs |
| Policy.NotOfTypeExactly | tongsuo/apps/ca.c:1824-1830 | what is left is the name at all positions of other types, in order |
| Policy.PartitionByType | tongsuo/apps/ca.c:1824-1830 | selecting and dropping a type lose no entry and invent none |
| Policy.DropEmail | tongsuo/apps/ca.c:1811-1837 | the deletion loop leaves exactly the entries that are not e-mail addresses, in order |
| RevInfo.MakeRevocationStr | tongsuo/apps/ca.c:2405-2487 | refuses exactly the bad arguments and otherwise prints time, reason and argument |
| RevInfo.FillBuffer | tongsuo/apps/ca.c:2468-2484 | the computed size fits the text and its terminator exactly, so no bounded copy cuts anything |
| RevInfo.LookUpReason | tongsuo/apps/ca.c:2418-2429 | the first of the eight reasons spelled in any case |
| RevInfo.TextRoundTrip | tongsuo/apps/ca.c:2592-2701 | every printed text unpacks to the same time, the reason code of section 5.3.1 of RFC 5280 and the same argument, commas included, if the clock printed a UTCTime, and is refused if it did not |
| RevInfo.CaseEqualExactly | tongsuo/apps/ca.c:2420-2424 | names compare equal exactly when each letter is the same in either case |
| RevInfo.ReasonCodes | tongsuo/apps/ca.c:2380-2396 | each of the eight reasons by name: what it is printed as and the code it is read back with |
| RevInfo.TextExactly | tongsuo/apps/ca.c:2405-2487 | a text is printed if and only if the argument is one of the eight names, an identifier or a time, as its kind demands; the special reasons carry theirs behind a comma |
| RevInfo.UnpackExactly | tongsuo/apps/ca.c:2592-2701 | any text with a reason is read if and only if its time is a UTCTime and the reason is one of the eight, whatever follows, or a special one with an argument of its kind |
| CaSpec.EvolvesTransitive | tongsuo/apps/ca.c:2241-2255 | the allowed changes of rows compose over any number of steps |
| CaSpec.RevokedIsFinal | tongsuo/apps/ca.c:2241-2255 | a revoked row never changes again, text included |
| CaSpec.IssueKeeps | tongsuo/apps/ca.c:1839-1992 | issuing appends the one row of the certificate under the given serial or changes nothing, and keeps the invariant |
| CaSpec.IssueOutcome | tongsuo/apps/ca.c:1520-2007 | issued if and only if well formed, confirmed and signed, every policy line is met (against the CA name unless self-signed), the serial is not listed and the name, where it must be, is free; the row and the name column of what is then appended; when it is declined |
| CaSpec.SubjectExactly | tongsuo/apps/ca.c:1622-1837 | the subject is the request's own name if preserved, else what the policy takes line by line, without e-mail addresses unless wanted |
| CaSpec.SubjectTypes | tongsuo/apps/ca.c:1715-1837 | so it has no e-mail address, only types the policy lists, or is the request's name, as configured |
| CaSpec.RevokeKeeps | tongsuo/apps/ca.c:2157-2261 | revoking changes rows only as allowed and keeps the invariant, given the readable times that RevokedLoadsIff shows to be needed |
| CaSpec.RevokeListedOutcome | tongsuo/apps/ca.c:2234-2255 | for any certificate with the serial of row i: succeeds if and only if the name is the row's, the row is not revoked, and revoking is asked with an acceptable argument; then that row is marked, else nothing changes |
| CaSpec.RevokeUnlistedOutcome | tongsuo/apps/ca.c:2191-2232 | for any other certificate: a row is added if the name, where it must be, is free; success if and only if it was added and only that was asked or the argument is acceptable, and then the row is marked too |
| CaSpec.RowOkExactly | tongsuo/apps/ca.c:747-783 | what the load check asks of a row, field by field |
| CaSpec.ExpireKeeps | tongsuo/apps/ca.c:2330-2378 | expiring changes rows only as allowed and keeps the invariant |
| CaSpec.ExpireIsComplete | tongsuo/apps/ca.c:2346-2374 | exactly the valid rows past their time are marked, in their type only, and a second pass does nothing |
| CaSpec.RunKeeps | tongsuo/apps/ca.c:747-783 | over every sequence of issue, revoke and expire steps no row is lost, serial, name and expiry never change, only revoked rows carry a text, serials and valid subjects stay unique, and the next load accepts the rows |
| CaSpec.RevokedLoadsIff | tongsuo/apps/ca.c:2191-2255 | the rows after a successful revocation pass the load check if and only if the clock printed a UTCTime, unless nothing was marked, and the certificate has a readable expiry, unless it was listed |
| CaSpec.RunCanonical | tongsuo/apps/ca.c:1845-1848 | every row that any sequence of steps adds has its serial number in the one form this program writes |
| CaSpec.IssuedIsRevocable | tongsuo/apps/ca.c:2168-2190 | however many steps later, revoking an issued certificate marks its own row and no other, unless revoked already or badly asked |
| CaDb.IndexFinds | tongsuo/crypto/txt_db/txt_db.c:127-145 | lookup through the serial index agrees with a scan of the rows |
| CaDb.InsertThroughIndexes | tongsuo/crypto/txt_db/txt_db.c:234-260 | insertion through both indexes refuses exactly the clashing rows and keeps the indexes right |
| CaDb.FoundAfterInsert | tongsuo/apps/ca.c:2225-2230 | the second lookup of a revocation finds the row just inserted |
| CaDb.Database.Load | tongsuo/apps/ca.c:747-792 | a database comes up exactly when every row passes the checks and neither index clashes |
| CaDb.Database.CheckSerial | tongsuo/apps/ca.c:764-782 | accepts exactly an optional sign and a positive even number of hex digits |
| CaDb.Database.IndexSerials | tongsuo/crypto/txt_db/txt_db.c:147-185 | the serial index exists exactly when no two rows share a serial number |
| CaDb.Database.IndexNames | tongsuo/apps/lib/apps.c:1684-1707 | the name index exists exactly when no two valid rows share a name |
| CaDb.Database.InsertRow | tongsuo/crypto/txt_db/txt_db.c:234-277 | the object's rows and indexes change as insertion on values says, or not at all |
| CaDb.Database.IssueCert | tongsuo/apps/ca.c:1622-1992 | policy scan, subject, clash checks, confirmation, signature and insertion together are the issue step |
| CaDb.Database.RevokeCert | tongsuo/apps/ca.c:2157-2261 | the recursive code is the non-recursive revoke step; it descends at most once |
| CaDb.Database.MarkRevoked | tongsuo/apps/ca.c:2234-2255 | a found row is marked with the printed text, or nothing changes |
| CaDb.Database.UpdateDb | tongsuo/apps/ca.c:2330-2378 | marks exactly the valid rows past their time and counts them; -1 exactly when some needed time is unreadable |
| CaDb.CountIsMarked | tongsuo/apps/ca.c:2346-2374 | the count is the number of valid rows past their time |
| CaBatch.BatchIssues | tongsuo/apps/ca.c:997-1081 | the k successes took serials s0 to s0+k-1, each absent before, added one row and one certificate each, and the next serial is s0+k |
| CaBatch.BatchTotal | tongsuo/apps/ca.c:997-1081 | a loop that was not stopped tried every request |
| CaBatch.BatchOutcomes | tongsuo/apps/ca.c:997-1081 | request by request and in order, each tried with the database and serial left by those before; the loop goes on past issued and declined ones and stops at the first other outcome, which it reports |
| CaBatch.BelowNeverClashes | tongsuo/apps/ca.c:1878-1887 | a serial number above all listed ones is not found in the index |
| CaBatch.AheadStaysAhead | tongsuo/apps/ca.c:1878-1924 | a batch that starts ahead of the database stays ahead and never stops for an issued serial |
| CaBatch.CertifyOne | tongsuo/apps/ca.c:1060-1080 | success takes the serial, a declined request does not, anything else stops the loop |
| CaBatch.CertifyRequests | tongsuo/apps/ca.c:997-1081 | the loop over all kinds of request is the batch function |
| CaDisk.RotateIndexFits | tongsuo/apps/lib/apps.c:1752-1811 | every stopping point of an index rotation, failed renames and undo renames included, leaves an index, live or kept aside, that keeps the rules, if both the old and the new one do |
| CaDisk.RotateBothFits | tongsuo/apps/ca.c:1173-1183 | rotating the serial file before the index is safe at every stopping point |
| CaDisk.CommitBatchFits | tongsuo/apps/ca.c:1087-1183 | the same for saving both files, truncating and writing the certificates and rotating, also if permitted writes fail unnoticed, as long as the old index does without the files rewritten |
| CaDisk.CommitIndexFits | tongsuo/apps/ca.c:1357-1363 | the same for the index-only commit of -revoke and -updatedb |
| CaDisk.AlwaysFitsMeans | tongsuo/apps/ca.c:1087-1183 | checking every stopping point, undo rename and permitted unnoticed failure covers every pattern of fates |
| CaDisk.CommitBatchCompletes | tongsuo/apps/ca.c:1087-1183 | a commit that ran to its end leaves the new index live and the old one aside; the serial number and the attribute are there exactly if their writes worked; if all calls work it runs to its end and all certificates are there |
| CaDisk.CommitIndexCompletes | tongsuo/apps/ca.c:1357-1363 | the same for the index-only commit, which leaves serial file and certificates alone |
| CaDisk.Unnoticed | tongsuo/apps/lib/apps.c:1510-1750 | which failed writes the code does not see |
| CaDisk.FailedRotationRestores | tongsuo/apps/lib/apps.c:1774-1806 | whichever single rename fails, the undo renames bring the old index back, and the attribute file or, if there was none and the last rename fails, the older one kept aside |
| CaDisk.SerialAfterCommit | tongsuo/apps/ca.c:1109-1177 | for every pattern of fates, where the serial file and its two companions are, and that live index and attribute file are the old ones until the index is rotated |
| CaDisk.SerialLostIff | tongsuo/apps/lib/apps.c:1510-1595 | a serial number, live or kept aside, is left if and only if its write worked or the file was not renamed into place |
| CaRuns.TextReadsBack | tongsuo/apps/lib/apps.c:1709-1750 | a saved index loads as the rows that were saved |
| CaRuns.SoundStart | tongsuo/apps/ca.c:971-975 | a loadable index with the serial file, if any, ahead of it is a sound disk; unique names may be claimed if they are configured and no attribute file says otherwise |
| CaRuns.SoundLoads | tongsuo/apps/lib/apps.c:1621-1679 | a sound disk has an index, live or kept aside, grown out of the starting rows, with canonical new rows and everything claimed; put back, it loads if and only if names need not be unique by the attribute file or the configuration, or are |
| CaRuns.ResumedRunNeverClashes | tongsuo/apps/ca.c:1878-1887 | a process on a sound disk never reports an already issued serial |
| CaRuns.PartsSound | tongsuo/apps/ca.c:793-1366 | a process that expires, issues and revokes on one database in memory keeps the disk sound, in whichever part it fails or stops |
| CaRuns.PutBackSound | tongsuo/apps/lib/apps.c:1752-1811 | renaming files kept aside to where the live one is missing keeps the disk sound |
| CaRuns.InvokeSound | tongsuo/apps/ca.c:740-1366 | loading and then either of these, provided revocations are of certificates listed or known by number (and by file, where files are claimed) and no write of what is claimed slips |
| CaRuns.HistorySound | tongsuo/apps/ca.c:740-1366 | any number of such processes and repairs keep an index, no row of it lost or un-revoked, the serial file ahead of it and, where claimed, a serial number, every added certificate on file and unique names |
| CaRuns.ProcessInTurn | tongsuo/apps/ca.c:740-1366 | a process without failures does its parts one after another, each on what the one before left, up to the first that is refused; the next process loads the last state |
| CaRuns.RevocationIsSaved | tongsuo/apps/ca.c:1339-1365 | an acceptable revocation of a listed certificate is loaded by the next process: the old rows with that one of type R and the printed text |
| CaRuns.ExpiryIsSaved | tongsuo/apps/ca.c:796-817 | after -updatedb the next process loads exactly the valid rows past their time as expired, all others as before |
| CaRuns.BatchIsSaved | tongsuo/apps/ca.c:1087-1183 | after a confirmed batch the next process loads the old rows and the k new ones, with the serial k further and k certificate files |
| CaRuns.LoadsExactly | tongsuo/apps/ca.c:740-792 | a live index loads if and only if its rows pass the check, no serial occurs twice and, by the attribute file or else the configuration, no name of a valid row; and what is then indexed |
| CaRuns.HistoryInTurn | tongsuo/apps/ca.c:740-1366 | a history is its processes one after another |
| CaRuns.ExposedIffWindow | tongsuo/apps/ca.c:1109-1177 | for every pattern of fates: a certificate written by this run has a number the next run may give out if and only if the calls fail or stop inside the window |
| CaRuns.NumberGivenAgain | tongsuo/apps/ca.c:1109-1177 | from such a disk the next run that issues anything starts from the same rows and serial, and its first certificate has the same number and file name |
| CaRuns.RevokeKnownSound | tongsuo/apps/ca.c:2191-2232 | revoking a certificate that is not listed but below the next serial (and on file, where files are claimed) keeps the disk sound wherever the commit stops |
| CaRuns.UnlistedRevocation | tongsuo/apps/ca.c:2191-2232 | revoking an unlisted certificate keeps the serial file ahead exactly when its number is below |
| CaRuns.UnlistedRevocationClashes | tongsuo/apps/ca.c:2191-2232 | if it equals the next serial number the next acceptable request is refused |
| CaCrl.PrecedesIsNumeric | tongsuo/crypto/x509/x_crl.c:344-349 | comparing ASN.1 integers by length, bytes and sign is comparing by size, a number before its negative |
| CaCrl.LoadedIsReadable | tongsuo/apps/ca.c:755-759 | after the load check every revoked row yields an entry |
| CaCrl.MakeCrl | tongsuo/apps/ca.c:1252-1312 | succeeds exactly when every revoked row is readable; one entry each, in order; version 2 exactly for a reason, a CRL number or an extension section; the number comes back incremented |
| CaCrl.EntriesExactly | tongsuo/apps/ca.c:1262-1269 | the entries are those of the revoked rows and no others, with the number the serial spells and what the text says, and as many as such rows |
| CaCrl.CrlStrictlyOrdered | tongsuo/apps/ca.c:1275-1278 | for all readable rows and however equal numbers are sorted, each serial strictly precedes the next if and only if no two revoked rows spell one number |
| CaCrl.TwoSpellings | tongsuo/apps/lib/apps.c:1424-1432 | two rows that load and whose CRL is not strictly ordered |
| CaCrl.RunCrlOrdered | tongsuo/apps/ca.c:1262-1278 | from canonical rows, any sequence of steps keeps them canonical and leads to a strictly ordered CRL |
| CaCrl.HistoryCrlOrdered | tongsuo/apps/ca.c:1262-1278 | so does any history of runs, whatever failed or stopped in it |
| CaCrl.IssuedSerialInCrl | tongsuo/apps/ca.c:1262-1278 | issue a certificate, take any steps, revoke it, take any steps: its row gives the CRL exactly one entry, with its serial number, reason, hold instruction and invalidity date as asked |
| SigCtx.DoubledIsLeast | providers/pqmagic-algorithms/pqmagic_prov.c:367-372 | growth picks the least sufficient doubling, and fails only when none fits a size_t |
| SigCtx.AppendSound | providers/pqmagic-algorithms/pqmagic_prov.c:354-381 | length stays within capacity and capacity within max(4096, 2*length); up to 2^63 bytes nothing is refused |
| SigCtx.ChunksAccumulate | providers/pqmagic-algorithms/pqmagic_prov.c:476-485 | accepted chunks, empty ones included, accumulate to their concatenation |
| SigCtx.FreshAcceptsExactly | providers/pqmagic-algorithms/pqmagic_prov.c:363-376 | from a fresh context a chunking is accepted exactly when the message has at most 2^63 bytes |
| SigCtx.DuplicateContinues | providers/pqmagic-algorithms/pqmagic_prov.c:329-352 | a duplicate taken midway and continued absorbs the same message as the original; each accepts exactly what the largest doubling of its own capacity holds, at least 2^63 bytes |
| SigCtx.CopyOutgrowsOriginal | providers/pqmagic-algorithms/pqmagic_prov.c:341-349 | past 2^63 bytes a copy may accept what its original refuses |
| SigCtx.ContextsHoldTheirMessages | providers/pqmagic-algorithms/pqmagic_prov.c:329-415 | over any sequence of updates, size queries and duplications on any of the contexts, each holds exactly its own message |
| SigCtx.StreamingIsOneShot | providers/pqmagic-algorithms/pqmagic_prov.c:417-530 | streaming gives what signing or verifying SM3 of the whole message gives, for every chunking |
| SigCtx.SignExactly | providers/pqmagic-algorithms/pqmagic_prov.c:454-530 | a session yields a signature if and only if key type and size, digest name and message length are right and it is the one of the SM3 digest of the whole message |
| SigCtx.VerifyExactly | providers/pqmagic-algorithms/pqmagic_prov.c:383-452 | a session accepts if and only if the same holds and the SM3 digest of the whole message verifies |
| SigCtx.SignThenVerify | providers/pqmagic-algorithms/pqmagic_prov.c:417-530 | a signature made under one chunking is accepted under every other |
| SigCtx.Context.constructor | providers/pqmagic-algorithms/pqmagic_prov.c:308-317 | a new context has no key and has absorbed nothing |
| SigCtx.Context.Dup | providers/pqmagic-algorithms/pqmagic_prov.c:329-352 | a fresh context with the same key and bytes and its own buffer |
| SigCtx.Context.Init | providers/pqmagic-algorithms/pqmagic_prov.c:454-474 | accepts exactly ML-DSA-44 keys of the right size and SM3 in any case; then nothing is absorbed, otherwise nothing changed |
| SigCtx.Context.Update | providers/pqmagic-algorithms/pqmagic_prov.c:354-381 | absorbs the chunk exactly when the size is representable; a refusal leaves the context unchanged |
| SigCtx.Context.Realloc | providers/pqmagic-algorithms/pqmagic_prov.c:373-377 | the bytes are moved unchanged, and all bytes ever moved fit in the new capacity |
| SigCtx.Context.VerifyFinal | providers/pqmagic-algorithms/pqmagic_prov.c:417-452 | accepts exactly when a nonempty message was absorbed and its digest verifies |
| SigCtx.Context.SignFinal | providers/pqmagic-algorithms/pqmagic_prov.c:487-530 | without a buffer reports the length; with one signs the digest exactly when key, message and room allow |
| SigCtx.DupIsIndependent | providers/pqmagic-algorithms/pqmagic_prov.c:329-352 | after duplication each context holds the common bytes and its own chunk, whether or not the other took its own |
| KeyOptions.TracksAdd | tongsuo/apps/cms.c:647-662 | adding a key option keeps indices strictly increasing and first-match lookup exact |
| KeyOptions.LookupIsFirstRun | tongsuo/apps/cms.c:1084-1089 | the search for an index returns the first run of options read for it, in order |
| KeyOptions.ExactIffHarmless | tongsuo/apps/cms.c:632-663 | every owner finds exactly its own options, option by option, if and only if each option of the other kind is harmless |
| CmsOptions.PlainTracksPairs | tongsuo/apps/cms.c:632-663 | without key options under -encrypt the list holds the options of the pairs and nothing else |
| CmsOptions.EncryptTracksRecipients | tongsuo/apps/cms.c:632-663 | with key options under -encrypt only, those of the recipients, named after the options or not, and nothing else |
| CmsOptions.OptionsBelongToPairs | tongsuo/apps/cms.c:1084-1098 | on every command line, each pair finds exactly the key options read while it was current if and only if those read under -encrypt are harmless; then the arguments match too, and for distinct arguments only then |
| CmsOptions.OptionsBelongToRecipients | tongsuo/apps/cms.c:826-981 | the same for recipients, also those named after the options, and the key options read outside -encrypt |
| CmsOptions.MixingOperationsMisplaces | tongsuo/apps/cms.c:632-643 | a key option read under -encrypt goes to the first signer after -sign |
| CmsOptions.TrailingRecipientMisplaced | tongsuo/apps/cms.c:826-836 | a recipient named after the options gets the key option of a signer |
| CmsOptions.Args.OnSigner | tongsuo/apps/cms.c:574-590 | pending names and lists follow the one-record-per-signer reading |
| CmsOptions.Args.OnInkey | tongsuo/apps/cms.c:594-612 | the same, and refused exactly when two keys stand without a signer |
| CmsOptions.Args.OnKeyopt | tongsuo/apps/cms.c:632-663 | the option is filed under the current recipient or pair, or refused when there is none |
| CmsOptions.Args.Finish | tongsuo/apps/cms.c:741-763 | accepted exactly when every pair has its signer; the lists then hold all pairs |
| CmsOptions.ParseOptions | tongsuo/apps/cms.c:574-836 | for every option sequence and list of names after it: accepted exactly when readable and every pair has its signer or, without signing, there is one pair at most, an operation and what that operation needs; lists, recipients and option list are those of the reference reading |
| CmsOptions.PairsComeFromFiles | tongsuo/apps/cms.c:574-612 | other options do not disturb the pairing |
| CmsOptions.EveryArgumentUsedInOrder | tongsuo/apps/cms.c:574-612 | every -signer and every -inkey argument is used exactly once, in order |
| CmsOptions.SignerListIsArguments | tongsuo/apps/cms.c:741-763 | the signer list is the -signer arguments |
| CmsOptions.AcceptedIffGrouped | tongsuo/apps/cms.c:594-612 | a sequence is acceptable if and only if it can be cut into signers each with at most one adjacent key |
| CmsOptions.ReadAsMeantIffUnambiguous | tongsuo/apps/cms.c:574-612 | groups are paired as spelled if and only if no lone signer precedes a key-first group |
| CmsOptions.ListsAsSpelled | tongsuo/apps/cms.c:741-763 | the signer and key lists of an unambiguous command line: every signer in order, with its own key or else itself |
| CmsOptions.RecipientsExactly | tongsuo/apps/cms.c:617-628 | recipients are the -recip arguments given under -encrypt; otherwise the last one counts |
| SectionList.PrevItem | tongsuo/apps/cmp.c:2054-2087 | returns the word before the position, or its first 40 characters, and moves strictly left past the separators |
| SectionList.WalkIsReverseSplit | tongsuo/apps/cmp.c:2054-2087 | walking from the right gives the left-to-right split in reverse, after one empty name if the list ends in a separator |
| SectionList.WalkOfList | tongsuo/apps/cmp.c:2096-2098 | for a list not ending in a separator, exactly its names |
| SectionList.ConfGetString | tongsuo/apps/cmp.c:2090-2101 | the first value found in walking order |
| SectionList.Separators | tongsuo/apps/cmp.c:2054-2087 | a comma and the six white-space characters separate |
| SectionList.GetExactly | tongsuo/crypto/conf/conf_api.c:66-96 | one section gives its own value, in [ENV] else that of the environment, else that of [default] |
| SectionList.WalkIsListed | tongsuo/apps/cmp.c:2054-2098 | for every list, exactly its names from the last to the first, a trailing separator counting as an empty last name |
| SectionList.LastSectionWinsIff | tongsuo/apps/cmp.c:2089-2101 | for every list: the value comes from the last listed section defining the name if and only if [default] does not define it, or that section is the last listed or [default]; otherwise it comes from [default] (two sections with equal values are told apart) |
| SectionList.DefaultHidesEarlierSection | tongsuo/crypto/conf/conf_api.c:66-96 | for the list "a,b" a value in [default] hides the one in section a |

## Left out

- AES, SM3, ML-DSA, X.509 signing and ASN.1 decoding are parameters; times and object identifiers are opaque strings.
- Random-serial and create-serial modes, and more than one process working on the same files at once.
- A failure to write the index is noticed in the model; the code looks at the result of `TXT_DB_write` but not at whether closing the file wrote out what was buffered.
- The serial file is a number, not text; the CRL number file is not rotated in the model.
- A comment line of 511 or more characters in the index file, which the reader takes in pieces, and NUL characters.
- A row whose type field is empty: marking it in place would overwrite the next field.
- `unique_subject` is configured once for a whole history, and an attribute file that is there holds yes or no.
- `BN_hex2bn` refuses texts of more than INT_MAX/4 digits; serial texts are below that.
- `-status`, SPKAC parsing, certificate file formats, the checks on the string types of a request and the text of messages are not modelled.
- Allocation failure and memory ownership.
- The checks of `cms` on receipt requests, CAdES flags and formats, and whether a named certificate file loads.
- Drbg.Generator.RandomBytes: asks for lengths below 2^31 because the loop's offset is an int; the reseed counter does not wrap.
- CaRuns.HistorySound: asks that revocations are of listed certificates or of numbers below the next one, that the times put into rows are readable and that no write of something claimed fails unnoticed; CaRuns.UnlistedRevocation, CaSpec.RevokedLoadsIff and CaDisk.SerialLostIff say what happens otherwise.
- TXT_DB_write, unpack_revinfo and the row lookups are functions on values; updating in place is modelled in `CaDb`, where rows are replaced in a sequence, so two names for one row cannot be told apart.
- The provider's key import and decoders, the other `tongsuo/apps` commands, demos and benchmarks.
