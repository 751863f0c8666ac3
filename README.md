# AfpCombine merge engine, modelled in Dafny

`AfpCombine` merges several AFP print files into one. It runs in five phases, in order:

1. **scanResources** reads every input file up to its first ERG (end resource group). For each file it records:
   - every resource its BRS/ERS pairs enclose: the start offset, the ERS offset, the end offset, the raw bytes and a hash;
   - the medium maps of the first formdef in the file: their fields, bytes and hash;
   - the formdef's own fields;
   - the offset at which the documents start.

   It also collects the names of all resources and medium maps into two global registries.
2. **buildRenamingTable** compares every file with every later file.
   - A resource or medium map that both files define but that differs (different hash, or different bytes) gets a fresh name in the later file. The fresh name is derived from the later file's hash and added to the registry.
   - One the files define identically inherits the earlier file's renaming, if it has one.
3. **buildFormdef** merges the medium maps of all files into one formdef.
   - A medium map whose final name was already written is skipped.
   - Each map's body is built category by category, taken from the map itself or else from the file's environment group (the fields between BDG and EDG).
4. **writeResourceGroup** writes a BRG, the merged formdef as an inline form map, every resource once under its final name, and an ERG.
   - The BRS and ERS of a renamed resource are re-encoded with the new name.
   - The body of every resource is copied byte for byte.
5. **writeDocuments** appends each file's documents.
   - Fields that reference a renamed resource or medium map (IMM, IOB, IPO, IPS, MCF, MCF1, MDR, MMO, MPO and MPS) are patched and re-encoded.
   - Every other field is copied as the bytes it was read from.

## Layout

| file | module | contents |
|---|---|---|
| wrappers.dfy | `Wrappers` | `Option` and `Result` |
| afp.dfy | `Afp` | structured fields, triplets and resource keys; records (a decoded field together with its raw bytes); the per-file inventory (`InputFile`, `Resource`, `MediumMap`) |
| naming.dfy | `Naming` | hash strings (`getHash`) and fresh names (`getNewResourceName`, `getNewFormdefName`) |
| scanner.dfy | `Scanner` | the scanning loop as a step function, and the invariants the scan keeps |
| renaming.dfy | `Renaming` | the pairwise comparison, written once for both resources and medium maps |
| formdef.dfy | `Formdef` | environment groups, `add`, and the merged formdef |
| patchers.dfy | `Patchers` | `overrideGid`, `renameBRSERS`, and the `rename(...)` patchers with their dispatch |
| anchors.dfy | `ScanAnchors` | where the scanned resources sit in the file: the BRS, ERS and BMM records their offsets and hashed bytes begin at |
| output.dfy | `Output` | the copy loop, the resource group and the document filter |
| combine.dfy | `Combine` | the `AfpCombine` class, its five phase methods and `Run`, the whole merge as one function `Merge`, and the end-to-end theorems |

The class `Combine.AfpCombine` holds the fields the Java object updates as Dafny fields:
- `files`;
- the registries `resourceNames` and `mmNames`;
- `formdef`;
- the output file, as the sequence of items written.

Every phase is a `method` whose loops carry invariants tying the state to a specification function of the inputs (`ScanFiles`, `BuildTable`, `MergedFormdef`, `ResourceGroup`, `AllDocuments`). `Run` is proved to produce exactly `Merge(inputs, digest, encode)`, or the error it stops with.

The main theorems:
- `Combine.MergeLayout` describes the whole output file:
  - the resource group holds each resource exactly once, under its final key, as a BRS, its body and an ERS;
  - it holds no form map;
  - `Combine.MergeFirstWriter`: the resource written under a final key is the first listed occurrence of that key, in file order and then in the order of each file's resource list. A key that one file begins twice is listed twice, but the file's position table keeps only the entry of its last BRS (`AfpCombine.java:149-150`), so that listed occurrence copies the bytes of the file's last BRS of the key;
  - the merged formdef never names a medium map twice and holds every file's maps;
  - the documents follow, in file order.
- `Combine.FirstFileVerbatim`: the first file's documents (everything after its first ERG) are copied into the output byte for byte, ahead of all other documents.
- `Renaming.RenamingTableProperties` and `Renaming.IdenticalNeverRenamed`: the renaming table only adds entries, and it never renames a resource that every file defines identically.

Shared conventions:
- Input files are the record streams the codec yields; an offset is the number of bytes read so far.
- The digest (MD5 by default) and the IBM500 encoding of names are function parameters.
- Each Java exception is an error value, and the model takes the same branch to it that the code does.

Behaviours of the code that are easy to misread, which the model follows:
- **Resource hash range.** The hashed bytes of a resource run from its BRS through its ERS inclusive (`AfpCombine.java:148`, `:177-178`, `:211-212`). Only the resource group copies the body alone. A BMM read while the first formdef is still being read replaces the buffer (`:163-170`), and an EMM of that formdef drops it (`:176-193`). So when the hash of a resource does not start at its BRS, it starts at the last BMM record before the resource's end, and no other BMM record lies between the two. `ScanAnchors.ResourcesAnchored` states both cases. `ScanAnchors.ContentFromBrs` gives the BRS-through-ERS range when no BMM lies inside.
- **MCF1 unset names.** An MCF1 name is left alone when its first or its second encoded byte is 0xFF (`:646`). When the encoding is empty, or is one byte that is not 0xFF, the source reads past its end. `Patchers.Mcf1Name` returns `Err(ShortEncodedName)` in that case rather than requiring a longer encoding.
- **Counter range.** The counter fallback of fresh names runs from 0 to 999998 (`:789`).
- **Registry check before upper-casing.** The registry is checked before the candidate is upper-cased (`:786-787`), so a returned name can already be registered. `Naming.FreshNameMayClash` gives an instance.
- **Document start without an ERG.** A file without an ERG keeps document start 0, so all of its fields are copied as documents (`:52`, `:139-141`).
- **Unpadded hex digits.** Hash digits are not zero-padded (`:822`), so two different digests can give the same hash string. `Naming.HexNotInjective` gives an instance.

## Model

| member | source | states |
|---|---|---|
| Naming.HexByte | src/main/java/afp/file/combine/AfpCombine.java:822 | one or two lower-case hex digits, one exactly when the byte is below 16 |
| Naming.HexByteValue | src/main/java/afp/file/combine/AfpCombine.java:822 | the digits read back as hex give the byte |
| Naming.HexLength | src/main/java/afp/file/combine/AfpCombine.java:820-824 | an n-byte digest gives between n and 2n hex digits |
| Naming.HexNotInjective | src/main/java/afp/file/combine/AfpCombine.java:820-824 | the digests [1, 35] and [18, 3] both give "123" |
| Naming.GetHash | src/main/java/afp/file/combine/AfpCombine.java:815-825 | the hash string is `Hex(digest(bytes))`, the unpadded hex of every digest byte |
| Naming.DecimalDigits | src/main/java/afp/file/combine/AfpCombine.java:790 | below 10^width, `%06d`-style formatting gives `width` decimal digits that read back as the number |
| Naming.WindowsAreRuns | src/main/java/afp/file/combine/AfpCombine.java:784-785 | a window candidate is the old name's first two characters plus w exactly when w is a run of six consecutive characters of the hash |
| Naming.CountersDistinct | src/main/java/afp/file/combine/AfpCombine.java:789-790 | the i-th counter candidate is the prefix plus six decimal digits that read back as i, so no two counter candidates are equal |
| Naming.FirstFree | src/main/java/afp/file/combine/AfpCombine.java:784-793 | the first index whose candidate is not registered; none exactly when all are registered |
| Naming.FreshNameCases | src/main/java/afp/file/combine/AfpCombine.java:783-813 | name shorter than 2 characters: error. Otherwise the upper-cased first unregistered candidate (all earlier ones registered). Error with names exhausted exactly when every candidate is registered |
| Naming.FreshNamePrefix | src/main/java/afp/file/combine/AfpCombine.java:785-790 | every fresh name starts with the old name's first two characters, upper-cased |
| Naming.FreshNameMayClash | src/main/java/afp/file/combine/AfpCombine.java:786-787 | with "F1ABCDEF" registered, the name returned for "F1" and hash "abcdef" is "F1ABCDEF" itself |
| Naming.GetNewName | src/main/java/afp/file/combine/AfpCombine.java:783-813 | both search loops return exactly `FreshName` |
| Scanner.OnBrs | src/main/java/afp/file/combine/AfpCombine.java:143-153 | a BRS keeps the open resource and the open medium map entries of the file's maps, and leaves the read position and the end-of-scan flag alone |
| Scanner.OnErs | src/main/java/afp/file/combine/AfpCombine.java:203-223 | an ERS keeps the open resource and the open medium map entries of the file's maps, and leaves the read position and the end-of-scan flag alone |
| Scanner.FieldStep | src/main/java/afp/file/combine/AfpCombine.java:138-223 | one field keeps the open entries of the file's maps, and sets the end-of-scan flag exactly at an ERG |
| Scanner.BrsOpens | src/main/java/afp/file/combine/AfpCombine.java:143-153 | a form-map BRS changes nothing but dropping the key; any other BRS appends its key to the resource list (again, when the file begins it twice), replaces the key's position entry by an unhashed one starting at the BRS, leaves every other entry alone, and opens an empty buffer for it |
| Scanner.ErsCloses | src/main/java/afp/file/combine/AfpCombine.java:203-223 | an ERS fails exactly when a buffer and a resource are open but the key was dropped; without a buffer it ends the first formdef and leaves the file alone; otherwise it closes buffer, key and resource, and a completed resource keeps its start and records the ERS offset, the end, the buffered bytes and their hash, with its name registered |
| Scanner.FieldStepOutcome | src/main/java/afp/file/combine/AfpCombine.java:138-223 | one field fails exactly at an ERS that closes a resource whose key a form-map BRS dropped; an ERG records the document start and ends the scan |
| Scanner.ScanInventory | src/main/java/afp/file/combine/AfpCombine.java:125-230 | after a scan the lists and maps agree; no form-map resource is recorded. For every resource with a hash: start ≤ end − length of the content ≤ ERS offset < end ≤ file length; the content is the file's bytes just before end; the hash is the hex digest of the content; its name is in the registry |
| ScanAnchors.ResourcesAnchored | src/main/java/afp/file/combine/AfpCombine.java:143-222 | every recorded resource starts at a BRS record of its key; a completed one's ERS offset is the start of an ERS record that ends at its end, and its hashed bytes begin at its BRS, or at a BMM record after which no BMM record begins before the resource's end |
| ScanAnchors.ContentFromBrs | src/main/java/afp/file/combine/AfpCombine.java:143-222 | with no BMM record inside a completed resource, its hashed bytes are exactly the file's bytes from its BRS through its ERS |
| Scanner.FirstErgEndsScan | src/main/java/afp/file/combine/AfpCombine.java:137-142 | the first ERG ends the scan; the documents start at the offset right after it; fields after it change nothing |
| Scanner.DoneIsFinal | src/main/java/afp/file/combine/AfpCombine.java:139-142 | once the ERG is seen, later records leave the state as it is |
| Scanner.ScanAfterFormdef | src/main/java/afp/file/combine/AfpCombine.java:155-206 | once the first formdef is over, its fields, medium maps and the medium-map registry no longer change |
| Scanner.ScanConsistent | src/main/java/afp/file/combine/AfpCombine.java:143-171 | the scan keeps the lists and maps in step and renames nothing |
| Scanner.ScanMapsNamed | src/main/java/afp/file/combine/AfpCombine.java:163-175 | a recorded medium map whose fields open with a BMM is recorded under that BMM's name |
| Renaming.SameContent | src/main/java/afp/file/combine/AfpCombine.java:293-297 | with equality checking off, any two contents are the same; with it on, the same exactly when they have equal length and equal bytes at every index (`Arrays.equals`) |
| Renaming.SameContentEquivalence | src/main/java/afp/file/combine/AfpCombine.java:293-297 | sameness is reflexive, symmetric and transitive, so inheriting a renaming from an identical copy is consistent |
| Renaming.ResolveOneCases | src/main/java/afp/file/combine/AfpCombine.java:241-261 | one key: skipped if the later file lacks it or already renamed it. Same entry: inherits the earlier renaming or stays. Otherwise gets `FreshName` of the later hash, which is registered. Fails exactly on a missing hash or when no fresh name exists |
| Renaming.ResolveAllProperties | src/main/java/afp/file/combine/AfpCombine.java:241-262 | entries are only added; only keys of both files are added; the registry only grows. If the earlier file's names and the current ones are well formed (old name's first two characters upper-cased, registered), so are the new ones |
| Renaming.ResolveAllRenames | src/main/java/afp/file/combine/AfpCombine.java:241-262 | a key not renamed before is renamed exactly when it is among the keys, the later file has it, and the earlier file neither renamed it nor recorded the same hash and content |
| Renaming.ResolveKeys | src/main/java/afp/file/combine/AfpCombine.java:241-288 | the key loop computes exactly `ResolveAll` |
| Renaming.ComparePairRenames | src/main/java/afp/file/combine/AfpCombine.java:236-262 | after files i and j are compared, file j renames a key it had not renamed exactly when both files define it and the earlier file neither renamed it nor recorded the same hash and content |
| Renaming.RenamingTableProperties | src/main/java/afp/file/combine/AfpCombine.java:232-291 | the scanned records are kept and the registries only grow; no renaming is replaced; a file renames only keys it has and an earlier file has too; all new names are well formed and registered; the first file is unchanged |
| Renaming.IdenticalNeverRenamed | src/main/java/afp/file/combine/AfpCombine.java:232-291 | a resource every file defines identically is renamed in none |
| Formdef.EnvGroupIsBracketed | src/main/java/afp/file/combine/AfpCombine.java:308-318 | the loop's group equals the fields strictly between each BDG and the next EDG, read front to back |
| Formdef.EnvGroupFields | src/main/java/afp/file/combine/AfpCombine.java:308-318 | the group holds only formdef fields, never a BDG or an EDG |
| Formdef.NoBdgNoGroup | src/main/java/afp/file/combine/AfpCombine.java:308-318 | a formdef without a BDG has an empty group |
| Formdef.SelectMembers | src/main/java/afp/file/combine/AfpCombine.java:376-380 | a field is selected exactly when it is among the fields and in the category (a PGP1 counts as a PGP) |
| Formdef.SelectConcat | src/main/java/afp/file/combine/AfpCombine.java:376-380 | selecting from a concatenation is concatenating the selections, so the selected fields keep their order and their repeats |
| Formdef.AddSource | src/main/java/afp/file/combine/AfpCombine.java:371-390 | `add` takes the map's own fields of the category, or, when it has none, the group's |
| Formdef.MapBodyCategories | src/main/java/afp/file/combine/AfpCombine.java:343-357 | every field of a map body is in one of the categories asked for, so none is a BMM or an EMM |
| Formdef.MapStepWritten | src/main/java/afp/file/combine/AfpCombine.java:320-361 | after one medium map the written names are still distinct, only grow, and include its final name |
| Formdef.MergedFormdefProperties | src/main/java/afp/file/combine/AfpCombine.java:299-368 | BFM first, EFM last, no medium-map name twice, every map of every file present under its final name |
| Formdef.EnvironmentGroup | src/main/java/afp/file/combine/AfpCombine.java:308-318 | the loop computes exactly `EnvGroup` |
| Formdef.Collect | src/main/java/afp/file/combine/AfpCombine.java:376-386 | the loop computes exactly `Select` |
| Formdef.AddFields | src/main/java/afp/file/combine/AfpCombine.java:371-390 | computes exactly `Add` |
| Formdef.WriteMapBody | src/main/java/afp/file/combine/AfpCombine.java:345-357 | the thirteen calls of `add` give `MapBody` in category order |
| Formdef.WriteMaps | src/main/java/afp/file/combine/AfpCombine.java:320-362 | the loop over a file's medium maps computes exactly `MapsFrom` |
| Patchers.FirstGid | src/main/java/afp/file/combine/AfpCombine.java:536-547 | the first replace-first-GID name at or after k, with none before it; none when there is none |
| Patchers.GidOverriddenChanges | src/main/java/afp/file/combine/AfpCombine.java:536-547 | only the first replace-first-GID name changes, to the new name; names of other types or no type are passed over |
| Patchers.GidOverriddenTwice | src/main/java/afp/file/combine/AfpCombine.java:536-547 | overriding twice is overriding with the second name |
| Patchers.OverrideGid | src/main/java/afp/file/combine/AfpCombine.java:536-547 | the loop computes exactly `GidOverridden` |
| Patchers.RenameBrsErs | src/main/java/afp/file/combine/AfpCombine.java:473-490 | a BRS stays a BRS whose key has the new name with type and object id unchanged, and whose triplets are the originals with the first replace-first-GID name overridden; an ERS becomes an ERS of the new name |
| Patchers.RenameNames | src/main/java/afp/file/combine/AfpCombine.java:726-739 | same number of names; each renamed on its own; modified exactly when some name is renamed |
| Patchers.RenameNameList | src/main/java/afp/file/combine/AfpCombine.java:766-780 | the loop computes exactly `RenameNames` |
| Patchers.LastClassification | src/main/java/afp/file/combine/AfpCombine.java:697-709 | some id exactly when the group holds an object-classification triplet, and then the id of the last such triplet |
| Patchers.RenameGroupSpec | src/main/java/afp/file/combine/AfpCombine.java:600-638 | same length; each triplet renamed on its own; modified exactly when some triplet hits a renamed key; fails (null FQN type) exactly when some fully-qualified name has no type |
| Patchers.RenameGroupsSpec | src/main/java/afp/file/combine/AfpCombine.java:682-724 | same number of groups, each renamed on its own; modified exactly when some group is; fails exactly when some group fails |
| Patchers.FindClassification | src/main/java/afp/file/combine/AfpCombine.java:697-701 | the loop over a group's triplets ends with the id of the last object-classification triplet, or none, exactly `LastClassification` |
| Patchers.RenameTripletList | src/main/java/afp/file/combine/AfpCombine.java:750-761 | the triplet loop of one group, looking each triplet's key up by `TripletRef`, computes exactly `RenameGroup` |
| Patchers.RenameTripletGroups | src/main/java/afp/file/combine/AfpCombine.java:746-764 | the group loop computes exactly `RenameGroups` |
| Patchers.Mcf1NameRule | src/main/java/afp/file/combine/AfpCombine.java:645-654 | an unset name (0xFF as its first or second encoded byte) is never renamed. A set name of two or more bytes is renamed exactly when the file renames it. Fails exactly for an empty encoding, or one byte that is not 0xFF |
| Patchers.RenameMcf1Groups | src/main/java/afp/file/combine/AfpCombine.java:640-680 | same number of groups, each patched on its own; modified exactly when some group is |
| Patchers.RenameMcf1 | src/main/java/afp/file/combine/AfpCombine.java:640-680 | the loop computes exactly `RenameMcf1Groups` |
| Patchers.UntouchedIsUnchanged | src/main/java/afp/file/combine/AfpCombine.java:501-529 | a field the callback leaves untouched is returned as it was |
| Patchers.PatchKeepsTag | src/main/java/afp/file/combine/AfpCombine.java:549-780 | a patched field keeps its kind, an IOB its object type and id, and every list of groups or names its length |
| Patchers.NothingRenamedUntouched | src/main/java/afp/file/combine/AfpCombine.java:549-780 | in a file with no renamings every field that patches without error is left untouched |
| Patchers.RenameInclude | src/main/java/afp/file/combine/AfpCombine.java:549-598 | the IMM, IOB, IPO and IPS patchers compute exactly `PatchField`, and never fail |
| Patchers.RenameMap | src/main/java/afp/file/combine/AfpCombine.java:600-780 | the MCF, MCF1, MDR, MMO, MPO and MPS patchers compute exactly `PatchField`, or its error |
| Patchers.Patch | src/main/java/afp/file/combine/AfpCombine.java:501-529 | the dispatch on the tag computes exactly `PatchField` |
| Output.BoundaryFrom | src/main/java/afp/file/combine/AfpCombine.java:498 | the first record at or after k that begins at the offset; none exactly when no such record exists |
| Output.ReadAt | src/main/java/afp/file/combine/AfpCombine.java:426-427 | the field of a record that begins at the offset, and the offset right after that record, which is within the file |
| Output.CopyBytes | src/main/java/afp/file/combine/AfpCombine.java:448-455 | the 8 KiB buffered loop computes exactly `Copied`: a negative count or a file that ends before the count fails, otherwise exactly `left` bytes from the offset |
| Output.CopiedSlice | src/main/java/afp/file/combine/AfpCombine.java:448-455 | a successful copy is the slice of the file from the offset, `left` bytes long |
| Output.CopyResource | src/main/java/afp/file/combine/AfpCombine.java:426-462 | a BRS, raw bytes and an ERS, read at the resource's start and ERS offset; with a new name both are renamed by `RenameBrsErs`, without one both are written as read |
| Output.WriteResource | src/main/java/afp/file/combine/AfpCombine.java:426-462 | the resource body of the loop computes exactly `CopyResource` |
| Output.CopyBody | src/main/java/afp/file/combine/AfpCombine.java:447-454 | the body is the file's bytes from just after the BRS up to the ERS |
| Output.Items | src/main/java/afp/file/combine/AfpCombine.java:408-409 | every formdef field written, in order |
| Output.ResourceGroupProperties | src/main/java/afp/file/combine/AfpCombine.java:392-471 | no key written twice; no form map; the output is one BRS, bytes, ERS triple per written key; every non-form-map resource of every file is written under its final key |
| Output.ResourceGroupFirstWriter | src/main/java/afp/file/combine/AfpCombine.java:417-463 | the written keys are the final keys of all resources, file by file and in encounter order, each kept at its first listed occurrence; the n-th triple is `CopyResource` of that occurrence, that is of the file's position entry for the key, which for a key the file begins twice is the entry of its last BRS |
| Output.FilterShape | src/main/java/afp/file/combine/AfpCombine.java:501-530 | one item per field, each the field's callback result; fails exactly when some field's callback fails |
| Output.NothingRenamedVerbatim | src/main/java/afp/file/combine/AfpCombine.java:501-530 | a file with no renamings has every record copied as its raw bytes |
| Output.VerbatimBytes | src/main/java/afp/file/combine/AfpCombine.java:498-501 | the raw bytes of records i onward are the file from offset i on |
| Output.WriteFileResources | src/main/java/afp/file/combine/AfpCombine.java:419-463 | the loop over a file's resources computes exactly `ResourcesFrom` |
| Output.FilterDocuments | src/main/java/afp/file/combine/AfpCombine.java:495-531 | positioning and filtering compute exactly `Documents` |
| Combine.ScanFiles | src/main/java/afp/file/combine/AfpCombine.java:125-230 | one inventory per input file, each consistent, renaming nothing, with medium maps named by their BMM |
| Combine.ScanFile | src/main/java/afp/file/combine/AfpCombine.java:137-226 | the field loop of one file computes exactly `ScanFrom`, stopping at the first ERG |
| Combine.FirstFileKept | src/main/java/afp/file/combine/AfpCombine.java:232-291 | after renaming, the first file has no renamings and its documents start right after its first ERG |
| Combine.DocumentsVerbatim | src/main/java/afp/file/combine/AfpCombine.java:498-530 | documents of a file with no renamings, starting at record b, are the raw records from b on |
| Combine.RenamedMapsNamed | src/main/java/afp/file/combine/AfpCombine.java:232-291 | after renaming, every file's medium maps are still recorded under the name of their BMM |
| Combine.MergeFirstWriter | src/main/java/afp/file/combine/AfpCombine.java:112-123 | in the merged file, the resource group's n-th resource is the copy of the first listed occurrence of the n-th final key, in file order and then in each file's resource-list order; the copy is of the file's position entry for the key, the entry of its last BRS when the file begins the key twice |
| Combine.MergeLayout | src/main/java/afp/file/combine/AfpCombine.java:112-123 | output = BRG, inline formdef, resources, ERG, then the documents; resources unique, no form map, all present under final keys; formdef BFM..EFM, distinct medium-map names, all present |
| Combine.FirstFileVerbatim | src/main/java/afp/file/combine/AfpCombine.java:492-534 | the documents begin with the first file's records after its first ERG, copied raw; those bytes complete the file |
| Combine.AfpCombine.constructor | src/main/java/afp/file/combine/AfpCombine.java:98-110 | one empty inventory per input file; empty registries and output |
| Combine.AfpCombine.ScanResources | src/main/java/afp/file/combine/AfpCombine.java:125-230 | the files and registries become exactly `ScanFiles`, or its error |
| Combine.AfpCombine.ComparePair | src/main/java/afp/file/combine/AfpCombine.java:236-288 | the two key loops for one pair of files compute exactly `ComparePair` |
| Combine.AfpCombine.CompareRow | src/main/java/afp/file/combine/AfpCombine.java:235-289 | the inner loop computes exactly `CompareRow` |
| Combine.AfpCombine.BuildRenamingTable | src/main/java/afp/file/combine/AfpCombine.java:232-291 | the tables become exactly `BuildTable` over all files, or its error |
| Combine.AfpCombine.BuildFormdef | src/main/java/afp/file/combine/AfpCombine.java:299-368 | `formdef` becomes exactly `MergedFormdef`, or its error |
| Combine.AfpCombine.WriteResourceGroup | src/main/java/afp/file/combine/AfpCombine.java:392-471 | the output becomes exactly `ResourceGroup`, or its error |
| Combine.AfpCombine.WriteDocuments | src/main/java/afp/file/combine/AfpCombine.java:492-534 | the output is extended by exactly `AllDocuments`, or its error |
| Combine.AfpCombine.Run | src/main/java/afp/file/combine/AfpCombine.java:112-123 | the output is exactly `Merge`; an error is exactly `Merge`'s error |

## Left out

- File I/O, the structured-field codec and `AfpFilter`: they are external libraries. An input file is given as the sequence of records the codec reads from it, and the output file as the sequence of items written (fields to re-encode and raw bytes to copy). `AfpFilter` is assumed to re-encode a modified field and copy an untouched one as read.
- The opening mode of the documents' output stream: `AfpFiles.newAfpBufferedOutputStream` is not part of this model. The documents are modelled as appended after the resource group.
- `MessageDigest` and the IBM500 charset are parameters (`digest`, `encode`), not implementations. The `security.digest` property and its exception path are left out (`:106-108`).
- `main` (`:63-87`) and all logging: command-line parsing and side output outside the merge.
- `ResourceKey.toResourceKey` is not part of this model. A key is the field's object type, name and object id (`Afp.KeyOfBrs`).
- In-place mutation of shared field objects: the patchers return new field values. Aliasing is not modelled. The source renames a BMM object in place (`:332`), and that object is also in the file's formdef list, but the environment-group pass that reads that list runs before the rename.
- Partial output when an exception stops a phase: `Run` reports the error and says nothing about what was written before it.
- `checkResourceEquality` is the constant `true` (`:96`), so content is always stored and compared. `SameContent` still covers both values.
- Negative or wrapped 64-bit offsets: offsets are natural numbers, and a file is far below 2^63 bytes.
- Scanner.ScanInventory: states only the hash range and content of completed resources, not the offsets of unfinished ones. The records those offsets fall on are stated by `ScanAnchors.ResourcesAnchored`.
- Upper: case mapping is ASCII-only. Only 'a' to 'z' are upper-cased, whereas Java's `String.toUpperCase` maps all of Unicode under the default locale (for example é to É, and ß to "SS", which changes the length). Names are taken to be ASCII, as AFP names encoded in IBM500 normally are.
- Renaming.CompareRow, Renaming.CompareRowLast, Renaming.BuildTable, Combine.Renamed: their own ensures state only length and consistency. CompareRowLast is the last comparison of a row, split out of CompareRow. What they compute is stated by `Renaming.RenamingTableProperties`, `Renaming.ComparePairRenames` and `Renaming.IdenticalNeverRenamed`.
- The medium-map fields MMO, MPO and MDR of the merged formdef are written unpatched, as the source writes them (`:345-350`). Only document fields are patched.
