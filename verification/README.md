# A verified model of malleus

malleus runs an Incus virtual machine on macOS. This project models the parts of
it that decide something and proves what they promise, for all inputs and all
runs. `dafny verify dfyconfig.toml` checks everything.

| file | component |
|---|---|
| `Wrappers.dfy`, `Text.dfy`, `Numbers.dfy` | options and results, the Rust string operations the program uses, decimal and hexadecimal numerals |
| `Mac.dfy`, `Ipv4.dfy` | MAC normal form, dotted-decimal addresses |
| `Leases.dfy`, `LeaseLaws.dfy`, `Arp.dfy` | the DHCP lease scanner and the ARP scan |
| `NetRoute.dfy` | the CIDR conflict check |
| `CloudText.dfy`, `Provision.dfy`, `CloudReader.dfy`, `ProvisionLaws.dfy` | the cloud-init renderer and its inverse |
| `Vm.dfy`, `VmLaws.dfy` | the vfkit argument vector and its inverse |
| `Image.dfy`, `ImageLaws.dfy` | the disk image cache, with runs cut off anywhere |
| `Pki.dfy`, `PkiLaws.dfy` | the certificate store, with runs cut off between writes |
| `Discovery.dfy`, `DiscoveryLaws.dfy` | the polling loop that finds the VM's address |
| `Autoconfigure.dfy`, `AutoconfigureLaws.dfy` | wiring the Incus remote |

Code that changes things step by step is a method with the source's loop or
steps, proved equal to a function of its inputs or of the old state; the laws
are lemmas about that function. `hide` statements keep function bodies out of
proofs that do not need them.

How the environment enters the model:

- **Interrupted runs** (images, certificates). A state directory carries a
  budget: the number of file operations that still succeed. An I/O error and a
  crash both end a run at the point where the budget is used up, so a theorem
  over all budgets is one over all points of interruption. A copy of the base
  image that is cut short may leave any prefix. Runs are sequential.
- **curl, certificate generation, the REST and vsock queries, `ps`, `arp`** are
  parameters: what the download leaves behind and whether it reports success,
  the material generation would deliver, what each poll finds.
- **Short reads** are a schedule attached to an open file.
- **The clock** is a trace in which consecutive polls are at least one two-second
  sleep apart.
- **The Incus client** is a table of remotes with a schedule of failures of its
  own; its listing prints one row per remote, with CSV quotes where a field needs
  them.
- **Strings** are sequences of Unicode scalar values, paths their displayed form,
  byte sizes wrap at 64 bits.

Where the code and its comments disagree, or a promise holds only under a
condition, the code is modelled and the exact condition is proved:

- The comment at `src/leases.rs:22` says a malformed MAC yields no lease. A name
  match still succeeds, so this holds on every file exactly when no name is given
  or the name is one that no field can spell (`MalformedMacYieldsNothing`).
- Validation accepts every configured disk size of at least one GiB. In the release
  profile, which is modelled, the byte size wraps at 2^64 (a debug build panics in the
  multiplication), and `set_len` refuses lengths from 2^63 on. A fresh run succeeds
  exactly when the root size neither wraps to zero nor is refused and the pool size
  is not refused (`FreshRunSucceeds`); the byte size is exact only below 2^34 GiB
  (`SizeIsExact`). A refusal is reported once: the unsized file stays, and later runs
  accept it (`RefusedRootIsKept`, `RefusedPoolIsKept`).
- `remote_exists` never finds a remote called "name" in any capitalisation, so
  repeating autoconfigure succeeds exactly for the other names
  (`RemoteExistsIsMembership`, `RepeatingSucceeds`).
- A share's path and tag can be told apart exactly when the tag does not hold
  `,mountTag=` (`ShareReadsBack`); validated tags never do.
- A payload comes back through a YAML literal block exactly when its lines are
  printable, so hold no carriage return of their own, and its first non-empty line
  does not start with a blank (`Readable`, `FileReadsBack`, `UserDataReadsBack`).
  Validation does not look at payloads: `"x\r  - path: /etc/y"` ends its own block,
  with what looks like a file entry after it (`ForgedEndsItsBlock`), `" x\ny"` deepens
  its block, and neither comes back (`ReadingBackCanFail`).
  Text with line feeds that starts with a printable character other than a blank, as
  PEM does, is always readable (`PlainPayloadIsReadable`), and the preseed is
  readable exactly when the lines of the bridge address are (`PreseedIsReadable`).
- `push_block` drops a carriage return in front of a line feed; statements about
  recovered text say so through `Normalised`, and `NormalisedIs` says exactly when
  nothing but trailing line feeds is lost. Injectivity needs no such condition: it is
  proved through a reader that cuts lines as the renderer does (`Framed`).
- Validation accepts line breaks in the bridge address and the host name. Preseed and
  metadata keep their lines, and show the value under its key, exactly when there is
  none (`PreseedShowsOneAddress`, `MetaDataShowsHostname`).

## Model

| member | source | states |
|---|---|---|
| `Text.NameCharIs` | src/provision.rs:39-42 | The characters of tags and names are the 26 small and 26 capital letters, the ten digits, `-`, `_` and `.`, and no other |
| `Numbers.DecimalIsPositional` | src/vm.rs:52-54 | Numbers are printed in positional notation to the base ten |
| `Numbers.HexDigitIs` | src/leases.rs:11 | The hexadecimal digits are the sixteen in small and in capital letters, with these values, and no other character |
| `Numbers.TwoDigitByte` | src/leases.rs:11 | Two digits are a byte in which the first counts sixteen times |
| `Numbers.ParseHexByteMeaning` | src/leases.rs:11 | A part denotes a byte exactly when, after an optional plus sign, it is a non-empty hexadecimal numeral of any length whose positional value is that byte: the overflow-checked digit loop is the positional value |
| `Numbers.CaseIsIgnored` | src/leases.rs:3-7 | Upper and lower case digits denote the same byte |
| `Numbers.LeadingZeroIsIgnored` | src/leases.rs:5-7 | A zero in front of an unsigned numeral changes nothing, so `0` and `00` are the same octet |
| `Numbers.PlusIsIgnored` | src/leases.rs:11 | One plus sign in front changes nothing, a second one is refused |
| `Mac.NormalizeMac` | src/leases.rs:8-18 | Succeeds exactly on six colon-separated parts that each denote a byte, and then returns their two-digit lowercase spelling |
| `Mac.OctetsIs` | src/leases.rs:8-18 | A MAC denotes six given bytes exactly if it is six parts that spell them, joined by colons |
| `Mac.StrippedSpellingAgrees` | src/leases.rs:3-7 | For every six bytes the spelling without leading zeros, as lease files and `arp` have it, denotes them and normalises to the padded one |
| `Mac.OctetsOfShow` | src/leases.rs:12-17 | Reading a normal form gives back the bytes it was made from |
| `Mac.NormalFormsAgree` | src/leases.rs:3-7 | Two MACs have the same normal form exactly when both are malformed or their byte values agree |
| `Mac.NormalIsIdempotent` | src/leases.rs:8-18 | Normalising a normal form changes nothing |
| `Mac.NormalShape` | src/leases.rs:12-17 | A normal form has 17 characters, no upper-case letter, and colons exactly at every third place |
| `Ipv4.ShowIpv4Is` | src/leases.rs:52 | An address prints as its four octets in order, in decimal, with dots between them |
| `Ipv4.ParseIpv4Meaning` | src/leases.rs:52 | An address parses exactly from its own printed form, so each address has one accepted spelling |
| `Leases.FindLease` | src/leases.rs:23-78 | The one-pass three-register scan returns the lease of the first closed piece of the text (cut at every brace) in which some MAC or name field identifies the VM and the last `ip_address` value parses |
| `Leases.MachineReadsRecords` | src/leases.rs:27-74 | From empty registers, the token machine computes on any text what reading it piece by piece gives |
| `Leases.TokensDecide` | src/leases.rs:31-33 | The answer depends on the tokens of the text only |
| `LeaseLaws.IdentifiesIs` | src/leases.rs:54-69 | A word identifies the VM exactly if it is `hw_address=` or `identifier=`, a type prefix if any, a MAC of the wanted bytes and separators if any, or `name=` with the given name and separators if any |
| `LeaseLaws.AddressWordIs` | src/leases.rs:49-53 | A word is an address field exactly if it starts with `ip_address=`, and gives an address exactly if that address, printed, and separators follow |
| `LeaseLaws.RecordLeaseIs` | src/leases.rs:38-72 | A record grants an address exactly if one of its words identifies the VM in that sense and the last word that starts with `ip_address=` prints the address |
| `LeaseLaws.HardwareRecordGrants` | src/leases.rs:38-61 | A record of a hardware field and an address, anywhere in a file, grants that address if the bytes of its MAC are the wanted ones and nothing otherwise, for both keys, all prefixes, separators and white space |
| `LeaseLaws.NamedRecordGrants` | src/leases.rs:38-69 | With a name field beside it, it grants the address exactly if the bytes are the wanted ones or the name is the given one |
| `LeaseLaws.HardwareFieldSays` | src/leases.rs:54-57 | A hardware field says its MAC, with or without a type prefix in front of it and separators behind it |
| `LeaseLaws.AddressField` | src/leases.rs:51-53 | An address field says exactly the address it prints |
| `LeaseLaws.LeaseIsFirstGrant` | src/leases.rs:38-45 | The answer is that of the first granting piece in text order, and there is none exactly when no piece grants |
| `LeaseLaws.LeaseComposes` | src/leases.rs:34-45 | If A is empty or ends in a brace, the answer on A followed by B is that on A, or else that on B |
| `LeaseLaws.ForeignRecordsAreInert` | src/leases.rs:34-45 | Text that ends at a record edge and grants nothing can be inserted or deleted at any record edge |
| `LeaseLaws.UnclosedTextIsInert` | src/leases.rs:34-45 | Text cut off by `{` or by the end of the file never counts |
| `LeaseLaws.LayoutIsIgnored` | src/leases.rs:31-33 | Any white space between two tokens may be replaced by any other, and dropped next to a brace |
| `LeaseLaws.WantedSpellingIsIgnored` | src/leases.rs:24 | The spelling of the wanted MAC does not matter |
| `LeaseLaws.FieldSpellingIsIgnored` | src/leases.rs:54-62 | A field of the file can be replaced in place by one that says the same, up to the spelling of a MAC |
| `LeaseLaws.LeaseMacSpellingIsIgnored` | src/leases.rs:54-62 | Respelling a well-formed MAC in any `hw_address` or `identifier` field of the file, with or without type prefix and trailing separators, never changes the answer |
| `LeaseLaws.FieldOrderIsIgnored` | src/leases.rs:46-72 | Permuting the fields of a record with at most one address never changes the answer |
| `LeaseLaws.RecordIsASetOfFields` | src/leases.rs:46-72 | A record whose addresses agree is read as a set of fields: order and repetition do not matter |
| `LeaseLaws.LaterMalformedAddressCancels` | src/leases.rs:51-53 | A malformed `ip_address` that no other one follows in its record, wherever it stands there, cancels the record: it grants nothing, and the file reads as if the record were not there |
| `LeaseLaws.MalformedMacYieldsNothing` | src/leases.rs:20-24 | With a malformed MAC every file yields nothing exactly when no name is given or no field can spell the name |
| `Arp.FindInArp` | src/leases.rs:81-105 | Returns what the row-wise reading gives: nothing for a malformed MAC, else the first matching row's address |
| `Arp.ArpLookupIsFirstRow` | src/leases.rs:85-104 | The answer is the first row, in output order, whose MAC bytes match and whose address parses, and there is none exactly when no row does |
| `Arp.ReadRow` | src/leases.rs:87-100 | One row gives its address exactly when it has four words, the third is `at`, the fourth has the wanted bytes and the second parses without its parentheses |
| `Arp.RowGives` | src/leases.rs:86-100 | A row `host (address) at MAC ...` gives the address if the bytes of its MAC are the wanted ones and nothing otherwise |
| `Arp.ArpFindsRow` | src/leases.rs:85-104 | In whole output such a row decides after the rows in front of it and before those behind it |
| `Arp.OtherRowsGiveNothing` | src/leases.rs:88 | Rows of fewer than four words or with another third word give nothing |
| `Arp.ArpSpellingIsIgnored` | src/leases.rs:82 | The spelling of the wanted MAC does not matter |
| `Arp.ArpComposes` | src/leases.rs:85-104 | On whole lines, the answer on A followed by B is that on A, or else that on B |
| `NetRoute.MaskedBits` | src/netroute.rs:13 | Network and broadcast addresses have all host bits clear and all host bits set, and keep every prefix bit of the address |
| `NetRoute.BlockIs` | src/netroute.rs:13 | Network and broadcast address are the ends of the block of 2^(32 - p) addresses that holds the address and starts at a multiple of that size |
| `NetRoute.CoversIsPrefix` | src/netroute.rs:5-8 | A block of prefix p matches exactly the addresses that agree with it in the leading p of the 32 bits |
| `NetRoute.CoversIsRange` | src/netroute.rs:5-8 | The addresses with a block's prefix bits are exactly those from its network to its broadcast address |
| `NetRoute.ContainsIsInclusion` | src/netroute.rs:13 | The containment test is inclusion of address sets |
| `NetRoute.DisjointOrNested` | src/netroute.rs:5-6 | Two blocks share an address exactly when one contains the other |
| `NetRoute.FindConflictIs` | src/netroute.rs:9-14 | Nothing is reported exactly when no route shares an address with the wanted block; otherwise the first such route in list order |
| `NetRoute.NoConflictIffUnrouted` | src/netroute.rs:5-8 | No conflict means exactly that longest-prefix match (section 5.1 of RFC 4632) routes no address of the wanted block yet |
| `NetRoute.NoConflictRoutesExactly` | src/netroute.rs:5-8 | Without a conflict, adding the block sends exactly its addresses to it and changes the lookup of no other address |
| `Provision.ValidTagIs` | src/provision.rs:35-47 | A tag passes exactly when it is non-empty and made of ASCII letters, digits, `-`, `_` and `.` |
| `ProvisionLaws.TagObjectionIs` | src/provision.rs:35-47 | A blank tag is reported as empty, any other that is no name as invalid |
| `ProvisionLaws.ValidateIs` | src/provision.rs:49-63 | A spec is accepted exactly if host name and bridge address are not blank and all tags, the state tag last, are names; otherwise the first failure in that order is reported |
| `Provision.PushBlock` | src/provision.rs:65-72 | Appends every line of the content without its trailing line feeds, indented |
| `Provision.PushFile` | src/provision.rs:101-104 | Appends one file entry: header, then the payload as a block indented by six |
| `Provision.PushFiles` | src/provision.rs:101-119 | Appends server certificate, server key, client certificate and preseed, in that order with those modes |
| `Provision.PushMounts` | src/provision.rs:121-137 | Appends a mounts section exactly when there is a mount or a state tag: one line per mount in order, the state share last |
| `Provision.PushMkdirs` | src/provision.rs:168-173 | Appends one directory line per mount in order, and the final mount command when there are mounts |
| `Provision.PushRun` | src/provision.rs:139-173 | Appends the whole run section |
| `Provision.RenderUserData` | src/provision.rs:82-176 | Returns the first validation error in the order of the checks, or the whole document |
| `CloudReader.FileReadsBack` | src/provision.rs:100-119 | A rendered file entry gives back path, mode and normalised payload: to a reader that cuts lines as the renderer does for every payload, to a YAML reader (line breaks, detected indentation and printable characters of YAML 1.2.2, sections 5.4, 8.1.1.1 and 5.1) exactly when all payload lines are printable and the first non-empty one does not start with a blank |
| `CloudReader.LinesReadBack` | src/provision.rs:65-72 | A literal block (YAML 1.2.2 section 8.1.2) read at the level it was pushed at gives back exactly those lines, and stops where the next entry starts, if and only if no line holds a break of its own: a line feed, or for YAML also a carriage return |
| `CloudReader.NormalisedIs` | src/provision.rs:67 | A payload comes back with its trailing line feeds collapsed to one, or empty if it had nothing else, exactly when no carriage return stands in front of a line feed in the rest |
| `CloudReader.BlockReadsBack` | src/provision.rs:65-72 | A reader that detects the indentation finds the pushed lines of every readable payload, the empty one included, and what follows the block |
| `CloudReader.DetectedLinesStartPlain` | src/provision.rs:65-72 | Whatever the text, detection leaves no blank in front of the first non-empty line: payloads that start so cannot come back |
| `CloudReader.ReturnEndsBlock` | src/provision.rs:65-72 | In general, a bare carriage return in front of text indented no further than the keys ends the block |
| `CloudReader.PreambleReads` | src/provision.rs:87-100 | The preamble gives back the lines of the network configuration under `network:`, and the rest of the document follows it |
| `CloudReader.MountsReadBack` | src/provision.rs:123-136 | The mount lines of valid tags read back as those tags in order |
| `CloudReader.MkdirsReadBack` | src/provision.rs:168-170 | The directory lines read back as the mounts in order |
| `CloudReader.RunReadsBack` | src/provision.rs:139-173 | The run section gives back the state tag and the directories made for the mounts; then comes `mount -a` exactly if there are mounts, and nothing else |
| `CloudReader.UserDataReadsBack` | src/provision.rs:82-176 | The whole document of a valid spec reads back as the six lines of network configuration, four files with their paths and modes in order, the tags of the mounts section, which is there exactly if there is a tag, and the run section: always to the framed reader, to the YAML reader exactly when the three PEM payloads and the preseed are readable |
| `ProvisionLaws.PlainPayloadIsReadable` | src/provision.rs:65-72 | Printable lines are readable when the first character is neither a blank nor a line feed |
| `ProvisionLaws.ReadingBackCanFail` | src/provision.rs:49-63 | Two payloads that pass validation in every valid spec and do not come back through YAML |
| `ProvisionLaws.ForgedEndsItsBlock` | src/provision.rs:65-72 | The first of them is cut at its carriage return: the block ends there and the rest of the payload, shaped like a file entry, follows it |
| `ProvisionLaws.PreseedIsReadable` | src/provision.rs:74-78 | The preseed comes back through YAML exactly when the lines of the bridge address are printable |
| `ProvisionLaws.PreseedIsNormal` | src/provision.rs:74-78 | The preseed reads back unchanged exactly when the line of the bridge address holds no carriage return in front of a line feed |
| `ProvisionLaws.PreseedShowsAddress` | src/provision.rs:74-78 | Two preseeds read back alike exactly when the lines of their bridge addresses agree |
| `ProvisionLaws.AddressLinesShowAddress` | src/provision.rs:74-78 | Without a carriage return in front of a line feed, that means equal addresses |
| `ProvisionLaws.PreseedNamesPool` | src/provision.rs:74-78 | Whatever the bridge address, in a scan of the lines of the preseed that reads back the last one with the source key names the pool's device |
| `ProvisionLaws.PreseedShowsOneAddress` | src/provision.rs:74-78 | Scanning the lines of the preseed that reads back for the address key gives exactly the bridge address, and the lines are those of the template, exactly when the address holds no line break |
| `ProvisionLaws.DocumentShowsOneAddress` | src/provision.rs:116-119 | The same through the fourth file of the whole document, when its payloads are readable |
| `ProvisionLaws.MetaDataShowsHostname` | src/provision.rs:179-185 | Scanning the lines of the metadata for the host key gives exactly the host name, and there are no lines but the two keys, exactly when the host name holds no line break |
| `ProvisionLaws.RenderingIsInjective` | src/provision.rs:82-176 | Two valid specs render alike exactly when mounts, state tag, the lines of the bridge address and the normalised payloads are equal |
| `ProvisionLaws.MovingTheStateTagShows` | src/provision.rs:121-148 | Listing the state share among the mounts mounts the same tags but changes the document |
| `ProvisionLaws.BothDocumentsShowTheSpec` | src/provision.rs:179-185 | Together with the metadata the documents determine the host name too |
| `ProvisionLaws.MetaDataIsValidated` | src/provision.rs:179-180 | The metadata of an invalid spec is refused for the same reason as its document |
| `ProvisionLaws.DocumentStarts` | src/provision.rs:88 | Every document starts with the line cloud-init recognises it by |
| `ProvisionLaws.CommandsUseWrittenFiles` | src/provision.rs:163-167 | After the packages are installed Incus is initialised from the path the preseed is written to and trusts the certificate at the path it is written to |
| `Vm.BuildArgs` | src/vm.rs:49-102 | The vector is the flattening of the intended flag and value pairs in order |
| `VmLaws.FlagsAlternate` | src/vm.rs:49-102 | The vector has even length and a known flag at every even place |
| `VmLaws.DevicesReadBack` | src/vm.rs:57-98 | Collecting what follows `--device` gives, in full, `virtio-blk,path=` root, the same for the pool, `virtio-net,nat,mac=`, `virtio-vsock` with port and socket, `virtio-rng`, `virtio-fs` with path and tag of every share in order, and the serial device if configured |
| `VmLaws.FlagsReadBack` | src/vm.rs:50-56 | Every other flag occurs once and is followed by its value |
| `VmLaws.PoolIsThePreseedSource` | src/vm.rs:57-60 | For every share list there are exactly two block devices, the pool second, and its guest name is the one on the last line with the source key in the preseed of every document that reads back, whatever the bridge address |
| `VmLaws.ShareReadsBack` | src/vm.rs:73-80 | Splitting a share device at the last `,mountTag=` gives path and tag exactly when the tag holds no such mark |
| `VmLaws.ValidTagReadsBack` | src/vm.rs:73-80 | In particular for every valid tag, commas in the path or not |
| `VmLaws.ArgsAreInjective` | src/vm.rs:49-102 | Two specs with such tags give the same vector exactly when they agree on everything but the network config and the cut between the seed files |
| `VmLaws.SeedFilesShow` | src/vm.rs:82-87 | The cut shows as well when the first seed path has no comma |
| `Image.OpenFile.Read` | src/image.rs:83 | One read delivers a non-empty stretch of the file unless the file or the buffer is at its end, and changes nothing else |
| `Image.ReadFull` | src/image.rs:78-89 | For every schedule of short reads the buffer ends up with exactly the first min(length, size) bytes, unless a scheduled fault is reported |
| `Image.StateDir.FetchBaseImage` | src/image.rs:108-128 | Files and result of the download step, wherever the run is cut off |
| `Image.StateDir.MakeRootDisk` | src/image.rs:134-143 | The same for copying and resizing the root disk; a size that `set_len` refuses leaves the copy unresized |
| `Image.StateDir.MakePoolDisk` | src/image.rs:151-157 | The same for creating and sizing the pool disk; a size that `set_len` refuses leaves it empty |
| `Image.StateDir.VerifyDiskImage` | src/image.rs:58-75 | Depends only on the file's first 520 bytes; a file that fails is removed and nothing else changes |
| `Image.StateDir.EnsureImages` | src/image.rs:91-164 | Files and result are those of the step function, wherever the run is cut off |
| `ImageLaws.SizeIsExact` | src/image.rs:140 | The byte size of a configured disk is exact exactly below 2^34 GiB |
| `ImageLaws.SizeIsZero` | src/image.rs:140 | A byte size is the remainder of the GiB count by 2^34, so it is zero exactly at the multiples of 2^34 GiB and at least one GiB otherwise, and a length that `set_len` accepts exactly when that remainder is below 2^33 |
| `ImageLaws.ClonePasses` | src/image.rs:137-149 | A root disk cloned from a passing image and resized passes, for every size that does not wrap to zero |
| `ImageLaws.ResizeKeepsHeader` | src/image.rs:139-149 | Resizing keeps every passing header passing exactly when 520 bytes remain |
| `ImageLaws.RunKeepsSettled` | src/image.rs:130-157 | A run, however it ends, changes neither a pool disk nor a disk that passes the check |
| `ImageLaws.HistoriesKeepSettled` | src/image.rs:130-157 | The same over every history of runs under any configuration |
| `ImageLaws.SuccessIsComplete` | src/image.rs:130-157 | Success leaves base and root passing the check and the pool present |
| `ImageLaws.NewDisksAreSized` | src/image.rs:135-157 | Disks a successful run creates are the base image resized and a blank pool, each of the configured size |
| `ImageLaws.NewDisksHaveConfiguredLength` | src/image.rs:139-156 | Below 2^34 GiB those lengths are the configured ones |
| `ImageLaws.RejectedFileIsGone` | src/image.rs:53-75 | A file reported as no disk image has been removed |
| `ImageLaws.FailedDownloadIsGone` | src/image.rs:121-127 | A failed download leaves nothing under the image's name unless the removal fails |
| `ImageLaws.GoodRunHeals` | src/image.rs:108-157 | With working I/O, a good download and fitting sizes for the disks that are missing or junk, a run that meets junk fails and removes one junk file; otherwise it succeeds |
| `ImageLaws.CacheHeals` | src/image.rs:108-157 | From any contents, when the disks that are missing or junk fit, exactly the first runs, as many as there are junk files and so at most two, fail with `NotADiskImage`; all later ones succeed |
| `ImageLaws.FreshRunSucceeds` | src/image.rs:135-157 | On an empty directory a good run succeeds exactly when the byte size of the root disk is neither zero nor 2^63 or more and that of the pool disk is below 2^63 |
| `ImageLaws.GoodRunSucceeds` | src/image.rs:108-157 | From any contents, a good run succeeds exactly when there is no junk and each disk that is missing has a size that can be made |
| `ImageLaws.RefusedRootIsKept` | src/image.rs:134-149 | A refused root size fails the run that copies the disk, but in every later history the copy keeps the length of the base image, and a later good run succeeds whatever root size is configured, exactly when the pool is there or fits |
| `ImageLaws.RefusedPoolIsKept` | src/image.rs:151-157 | A refused pool size fails the run that creates the disk and leaves it empty in every later history |
| `ImageLaws.PassesIs` | src/image.rs:33-41 | A file passes exactly if it holds the MBR signature at byte 510 or the letters EFI PART at byte 512 |
| `ImageLaws.TextIsNoImage` | src/image.rs:27-32 | A file of ASCII bytes, such as an error page, even one extended with zeros, passes only if it spells EFI PART at byte 512 |
| `ImageLaws.ArchIs` | src/image.rs:98-106 | The two supported machines and the image of each; any other is reported and nothing is changed |
| `ImageLaws.FreshRunFiles` | src/image.rs:108-157 | A success on an empty directory leaves exactly the downloaded image, its copy of the configured size and the blank pool |
| `ImageLaws.FailedDownloadIsReported` | src/image.rs:121-127 | A failed download is always reported, and the directory is as before unless the removal fails |
| `ImageLaws.PresentImageIsUsed` | src/image.rs:111-113 | With an image in place a run does not depend on any download |
| `ImageLaws.NewDisksAreFromImage` | src/image.rs:134-157 | Wherever a run is cut off, a root disk it made is a piece of the image or the image resized, and a pool it made is blank |
| `Pki.PkiDir.WriteIdentity` | src/pki.rs:111-115 | Writes the certificate, then the key, as far as the run gets |
| `Pki.PkiDir.ReadIdentity` | src/pki.rs:117-122 | Reads both files and changes none |
| `Pki.PkiDir.LoadOrCreateInPlace` | src/pki.rs:152-167 | Directory and result are those of the step function, wherever the run is cut off |
| `PkiLaws.OneGeneration` | src/pki.rs:158-164 | Over every history from an empty directory the files are a part of the one generation of the one run that wrote |
| `PkiLaws.PresentIsFrozen` | src/pki.rs:132-143 | A directory that holds any of `client.crt`, `client.key`, `server.crt` and `server.key` is never written to again |
| `PkiLaws.SuccessStores` | src/pki.rs:151-167 | Returned material is what the four files, by name, then hold |
| `PkiLaws.SuccessIsFinal` | src/pki.rs:151-156 | After a success every later run writes nothing and returns the same material if it can read |
| `PkiLaws.CutOffIsReported` | src/pki.rs:132-143 | A run cut off after one to three writes makes every later run report incomplete material |
| `PkiLaws.OutcomeIsDecidedByPresence` | src/pki.rs:132-143 | Incomplete material is reported exactly when some but not all of those four files exist; only a directory without any of them is written to |
| `PkiLaws.ExistingIsLoaded` | src/pki.rs:145-155 | Four existing files are returned, each in its place, and nothing is written |
| `PkiLaws.MissingIsCreated` | src/pki.rs:157-166 | Where none exists, the generated material is returned and each part stored under its name |
| `PkiLaws.FailedGenerationIsReported` | src/pki.rs:158-161 | A failing generation is reported and writes nothing |
| `Discovery.ScanSerialLog` | src/main.rs:701-711 | The backward scan returns the latest report of the log |
| `Discovery.LatestReportIs` | src/main.rs:702-710 | That is the address of the last line that reports a parsable one |
| `DiscoveryLaws.LineReports` | src/main.rs:702-706 | A line reports the address that follows its first `Reported IP `, whatever stands in front of that and behind the address |
| `DiscoveryLaws.LogReports` | src/main.rs:701-710 | In a whole log such a line gives the answer unless a later line reports an address |
| `DiscoveryLaws.GuestReportIsRead` | src/main.rs:702-706 | The line that the scripts of the guest print for an address is read as that address |
| `DiscoveryLaws.ScriptsReport` | src/provision.rs:139-160 | Both scripts of the rendered document print that line |
| `DiscoveryLaws.ShareReports` | src/main.rs:689-692 | The state share answers the address it holds, white space around it ignored |
| `DiscoveryLaws.LeaseReports` | src/main.rs:723-726 | A lease file with one record answers its address exactly if the MAC denotes the bytes of 52:54:00:12:34:56 or the name is malleus |
| `DiscoveryLaws.ArpReports` | src/main.rs:743-750 | The ARP table answers with the row of those bytes |
| `Discovery.AskOnce` | src/main.rs:673-756 | The inline queries of one poll give the answer of the first source that has one |
| `Discovery.AskLease` | src/main.rs:723-736 | One lease file gives its lease for the default MAC or the VM name, or a reason why not |
| `Discovery.ResolveVmIp` | src/main.rs:616-789 | An explicit address is returned; otherwise the loop ends at the first poll that ends the search, with that poll's outcome, and every pause before the last began within the timeout |
| `DiscoveryLaws.OutcomeIsUnique` | src/main.rs:644-788 | The poll at which the search ends and its outcome are determined |
| `DiscoveryLaws.PollIpIsBest` | src/main.rs:673-756 | Within a poll the answer is that of the highest-priority source that has one |
| `DiscoveryLaws.PriorityIs` | src/main.rs:673-756 | Within a poll: REST, vsock, state share, serial log, first and second lease file, ARP, each asked of what the poll found for it |
| `DiscoveryLaws.AddressIsEarliestBest` | src/main.rs:644-788 | An address is returned exactly when it is the best answer of the first answering poll, with the VM running up to then and no timeout before |
| `DiscoveryLaws.FoundWithinAMinute` | src/main.rs:635-640 | An address that a source has within the first sixty seconds is found |
| `DiscoveryLaws.NotRunningIs` | src/main.rs:646-671 | The search fails for a stopped VM exactly at the first poll that finds it so, with the state of the socket and the last three hypervisor errors |
| `DiscoveryLaws.TimedOutIs` | src/main.rs:758-786 | It times out exactly at the first poll that ends after the timeout, with the VM running and no answer up to then |
| `DiscoveryLaws.LatestIs` | src/main.rs:658-660 | The last lines of a log are its last ones, latest first |
| `DiscoveryLaws.ReasonsSay` | src/main.rs:719-778 | What is said about each place when nothing was found |
| `DiscoveryLaws.SearchedInOrder` | src/main.rs:627-633 | The seven places are listed in the order they are searched |
| `DiscoveryLaws.SearchedIsDistinct` | src/main.rs:716-743 | The list of searched places holds each place once, whatever the lease path |
| `DiscoveryLaws.SearchEnds` | src/main.rs:635-640 | With the production timeout every search ends within 31 polls |
| `Autoconfigure.ValidMountNameIs` | src/main.rs:162-167 | The name check accepts exactly the non-empty strings of name characters, as the mount tag check does |
| `Autoconfigure.AutoconfigureWithRunner` | src/main.rs:800-842 | The calls made through the runner, its new table and the result are those of the step function |
| `AutoconfigureLaws.NameOfRow` | src/main.rs:494-500 | The name of a printed row is recovered, marked as current or not, for every name that is printed without CSV quotes, has no blank at its end and does not end like the marker |
| `AutoconfigureLaws.RemoteExistsIs` | src/main.rs:493-504 | On every printed listing of such remotes `remote_exists` is membership, except for case variants of "name", which are never found |
| `AutoconfigureLaws.RemoteExistsIsMembership` | src/main.rs:493-504 | It is membership on all listings exactly for the names that are no such variant |
| `AutoconfigureLaws.NameVariantsAre` | src/main.rs:493-504 | Those variants are the sixteen spellings of four letters |
| `AutoconfigureLaws.WireIs` | src/main.rs:823-837 | The calls are list, at most one add, then switch; add is called exactly after a successful list that does not show the name |
| `AutoconfigureLaws.ConfigureFollowsProtocol` | src/main.rs:800-842 | Nothing follows a failed call, and success is exactly a successful switch |
| `AutoconfigureLaws.WireChangesTable` | src/main.rs:823-837 | At most one remote is added, only under an absent name, and a success leaves it present and current |
| `AutoconfigureLaws.RefusedBeforeCalls` | src/main.rs:800-820 | An invalid name, missing credentials and a missing address are reported in this order, exactly when they occur, and without any call |
| `AutoconfigureLaws.ConfigureChangesTable` | src/main.rs:820-837 | The remote added is that of the given name with `https://`, the resolved address and port 8443, and a success switches to it |
| `AutoconfigureLaws.UrlNamesAddressAndPort` | src/main.rs:821 | That is the port which the preseed makes Incus listen on, and the address parses back |
| `AutoconfigureLaws.WorkingRunIs` | src/main.rs:820-837 | With a working client the calls, the new table and the success of a run are exactly these, for a remote that is there and for one that is not |
| `AutoconfigureLaws.ConfigureKeepsPrintable` | src/main.rs:823-837 | The table stays one whose listing the next run reads exactly |
| `AutoconfigureLaws.NoHistoryAddsAgain` | src/main.rs:823-837 | After a success, over every history of later runs with any names, setups and faults, the remote stays in a table that is read exactly, and unless its name is a case variant of "name" no call adds it again |
| `AutoconfigureLaws.LaterRunAddsExactly` | src/main.rs:823-837 | After any such history a run under the same name calls add exactly when the name is a case variant of "name", everything is in place and the listing succeeds |
| `AutoconfigureLaws.RepeatingSucceeds` | src/main.rs:823-837 | With a working client, repeating a success after any history succeeds exactly for names that are no case variant of "name" |

## Left out

- Certificate and key generation (`src/pki.rs:82-109`): foreign cryptography, a parameter here.
- Processes and network clients (vfkit, curl, brew, ps, arp, kill, incus, the vsock and REST clients): they appear as what they deliver.
- `describes_live_vfkit`, `describe_header`, `Config::validate`, `cmd_status`, `cmd_delete`, `cmd_mount`, `cmd_unmount`, argument parsing and the wording of messages: settled by reading one branch.
- Copying the client credentials before the remote is wired (`src/main.rs:810-813`): one outcome of the setup parameter.
- Full YAML and the meaning of the shell scripts: the readers know literal blocks and the line shapes the renderer emits.
- The constant text of boot commands, package installation and guest scripts is data; only what other components rely on is stated about it.
- YAML scalars inside preseed and metadata (quotes, comments, types): their lines are scanned for keys.
- The further line breaks of YAML 1.1 (U+0085, U+2028, U+2029): the YAML reader follows YAML 1.2.2.
- A single file write is atomic, except the copy of the base image and the download; concurrent runs are not modelled.
- The size of a disk left by a run cut off before it was resized.
- Refreshing the URL of an existing remote: the program does not do it.
- The column header the listing might have: the check for "name" is modelled, a header row is not printed.
- Non-UTF-8 paths, whose displayed form is lossy.
