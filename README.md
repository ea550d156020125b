# guestconv boot-loader detection, modelled in Dafny

This project models the boot-loader part of guestconv's Red Hat converter,
`guestconv/converters/redhat.py`. It covers four pieces:

- how the converter recognises the boot loader of an inspected guest root: legacy GRUB, GRUB2 booted by BIOS, or GRUB2 booted by EFI, tried in that order;
- how each variant lists its kernels in the order the boot loader would try them;
- how `get_initrd` reads the initrd of a kernel from `grubby --info`;
- how `augeas_error` turns a failed augeas query into a diagnostic.

The guestfs handle `h` becomes an immutable snapshot, `GuestFs.Guest`. It
records what each call the core makes answers for one guest. Calls that can
raise answer a `Reply`, which is either `Answer(value)` or `Raise(message)`.
The exceptions become `Outcomes.Error`, which has four cases:

- `BootLoaderNotFound`
- `ConversionError`
- `GuestFSError`, for the RuntimeError libguestfs raises
- `PythonError`, for a Python error the code raises by accident

Every operation is a pure function of the snapshot. It is paired with:

- a method that does the same thing the way the source does, with the source's loops, early exits and `checked` dict;
- lemmas that state what the operation promises.

The three variants are classes. Their `const` fields are the state the Python
constructors discover, for example `grubConf`, `grubFs`, `disk` and `cfg`. A
static `Recognise` method runs the constructor's search and returns either
the object or the exception.

Modules and files:

- `outcomes.dfy` defines `Outcomes`.
- `guestfs.dfy` defines `GuestFs`.
- `text.dfy` defines `Text`: `str.strip()` and Python's whitespace.
- `augeas_error.dfy` defines `AugeasErrors`.
- `grubby.dfy` defines `Grubby`: `Grub.get_initrd`.
- `grub_legacy.dfy` defines `GrubLegacyProbe`, and `grub_legacy_laws.dfy` holds its laws in `GrubLegacyLaws`.
- `grub2.dfy` defines `Grub2Probe`: `Grub2`, `Grub2BIOS` and `Grub2EFI`.
- `detection.dfy` defines `Detection`: `RedHat._inspect_bootloader`.
- `scenarios.dfy` holds concrete guests in `Scenarios`.

Four behaviours of the code are worth stating first:

- Detection never ends in `BootLoaderNotFound`. When no variant is recognised, the code raises a `ConversionError` naming the root.
- The augeas diagnostic starts with the text of the original error and a newline, and then has one block per error node. `str.strip()` then removes whitespace at both ends, not only the trailing whitespace.
- The original error is re-raised only when its text is blank and augeas holds no error node.
- The EFI search keeps the first `find` result ending in `/grub.cfg`. A result that is just `grub.cfg`, with no `/` before it, is not kept.

There are three places where the code does not do what it evidently means.
They are listed under "## Findings". In each case the model keeps the code as
written in a separate function, with a lemma that shows the difference. The
classes use the corrected behaviour.

## Model

| member | source | states |
|---|---|---|
| Text.Strip | guestconv/converters/redhat.py:61 | `str.strip()`: the result is a slice of the input. It is empty exactly when the input is all whitespace; otherwise it begins and ends with a non-whitespace character |
| Text.StripPadded | guestconv/converters/redhat.py:61 | stripping removes exactly the surrounding whitespace: a word padded with whitespace strips back to the word |
| AugeasErrors.ErrorFile | guestconv/converters/redhat.py:37-38 | the file an error node describes: `/augeas/files` + file + `/error` is the node path, and the file starts with `/` |
| AugeasErrors.ErrorFileRoundTrip | guestconv/converters/redhat.py:37-38 | for every file starting with `/`, matching the error-node path built for it gives that file back |
| AugeasErrors.DetailKey | guestconv/converters/redhat.py:42-43 | a detail name is found exactly when the path is the error node, `/`, then the name; otherwise the match fails |
| AugeasErrors.DetailKeyRoundTrip | guestconv/converters/redhat.py:42-43 | the path of detail `k` under an error node gives `k` back |
| AugeasErrors.CollectDetail | guestconv/converters/redhat.py:40-43 | reading the details fails only with a GuestFS error from `aug_get` or with the AttributeError of `m.group` on a failed match |
| AugeasErrors.CollectDetailLaws | guestconv/converters/redhat.py:40-43 | reading succeeds exactly when every path can be read and lies below the error node. The dict then keeps its earlier keys, gains every detail name, and holds for the last path the value read there |
| AugeasErrors.CollectDetailValues | guestconv/converters/redhat.py:40-43 | the dict's names are exactly its earlier names plus the names read. Names never read keep their values, and a name read more than once holds the value read last |
| AugeasErrors.Block | guestconv/converters/redhat.py:45-55 | one error node's lines start with `augeas error for <file>` and end with a newline |
| AugeasErrors.BlockShowsMessage | guestconv/converters/redhat.py:45-48 | `: <message>` follows the header exactly when a message detail exists |
| AugeasErrors.BlockBare | guestconv/converters/redhat.py:45-55 | with no message, position or lens detail, the block is the bare header line |
| AugeasErrors.BlockReadsOnlyReported | guestconv/converters/redhat.py:45-55 | only the message, pos, line, char and lens details affect the block |
| AugeasErrors.Compose | guestconv/converters/redhat.py:36-55 | composing the blocks fails only with a GuestFS error or the AttributeError of a failed match |
| AugeasErrors.ComposeExtends | guestconv/converters/redhat.py:34-55 | the message keeps its start (`str(ex)` and a newline). With at least one error node it continues with `augeas error for `, so the character after the start is not whitespace |
| AugeasErrors.ComposeGrows | guestconv/converters/redhat.py:45-55 | each error node adds at least a header and a newline (18 characters) to the message |
| AugeasErrors.BlankMessage | guestconv/converters/redhat.py:61-66 | the composed message is blank exactly when `str(ex)` is blank and there is no error node |
| AugeasErrors.Diagnose | guestconv/converters/redhat.py:33-66 | `ex` is re-raised exactly when its text is blank and augeas lists no error node. A GuestFS failure while querying the tree gives the ConversionError naming both errors (`Combined`). Once the blocks are composed, the ConversionError carries the stripped message. Apart from that, only the AttributeError of a failed match is passed on; the result is never `BootLoaderNotFound` |
| AugeasErrors.Combined | guestconv/converters/redhat.py:56-59 | definition: the text of the ConversionError that names the failure and the original error; `Diagnose` states when it is raised |
| AugeasErrors.AugeasError | guestconv/converters/redhat.py:33-66 | the loops over error nodes and details, accumulating `msg`, raise exactly what `Diagnose` describes |
| AugeasErrors.ReadDetail | guestconv/converters/redhat.py:40-43 | the loop filling `detail` produces what `CollectDetail` describes |
| AugeasErrors.AppendBlock | guestconv/converters/redhat.py:45-55 | the appends to `msg` add exactly one `Block` |
| Grubby.InitrdToken | guestconv/converters/redhat.py:74 | `^initrd=(\S+)`: the token follows a leading `initrd=`, is non-empty, has no whitespace and runs to whitespace or the end. There is no match exactly when the line lacks the prefix or whitespace or the end follows it |
| Grubby.InitrdTokenOfLine | guestconv/converters/redhat.py:74 | `initrd=<t>`, followed by nothing or by whitespace, yields exactly `t` |
| Grubby.FirstInitrd | guestconv/converters/redhat.py:73-76 | the token found is non-empty and has no whitespace |
| Grubby.FirstInitrdIsFirst | guestconv/converters/redhat.py:73-76 | the loop answers the token of the first line that has one, and none exactly when no line has one |
| Grubby.Initrd | guestconv/converters/redhat.py:72-79 | get_initrd either answers a non-empty token without whitespace, or raises the ConversionError naming the kernel, or passes on the grubby failure |
| Grubby.InitrdAsWritten | guestconv/converters/redhat.py:73 | definition: get_initrd as written raises NameError on reading `h` |
| Grubby.InitrdAsWrittenNeverAgrees | guestconv/converters/redhat.py:73 | as written, get_initrd raises NameError for every kernel, so it never agrees with the intended result |
| Grubby.GetInitrd | guestconv/converters/redhat.py:72-79 | the loop over grubby's lines returns what `Initrd` describes |
| GrubLegacyProbe.FirstIn | guestconv/converters/redhat.py:89-106 | the search loops: the first candidate present, with every earlier candidate absent, or none when no candidate is present |
| GrubLegacyProbe.Locate | guestconv/converters/redhat.py:84-106 | `BootLoaderNotFound` exactly when neither grub.conf nor menu.lst exists. Otherwise the config is grub.conf if it exists, else menu.lst, and the prefix is `/boot/grub`, else `/boot`, else `''`, by the inspected mount points |
| GrubLegacyProbe.DefaultEntryNodes | guestconv/converters/redhat.py:119-129 | definition: the kernel nodes of the default entry, empty when either query fails; `DefaultEntryFirst` states the effect |
| GrubLegacyProbe.KernelNodes | guestconv/converters/redhat.py:119-136 | definition: the `paths` list, the default entry's nodes then every kernel node; `DefaultEntryFirst` and `KernelsResolveDistinctNodes` state the effect |
| GrubLegacyProbe.Resolve | guestconv/converters/redhat.py:138-155 | definition: the loop with the `checked` dict; `ResolveIsDistinctThenAll`, `ResolveAllSound` and `ResolveAllFailsOnlyOnQuery` characterise it |
| GrubLegacyProbe.Kernels | guestconv/converters/redhat.py:112-157 | definition: list_kernels, the node list then resolving it; `KernelsSound` and `KernelsResolveDistinctNodes` characterise it |
| GrubLegacyProbe.GrubLegacy.Recognise | guestconv/converters/redhat.py:84-106 | the two `break` loops find what `Locate` describes and store it in the object |
| GrubLegacyProbe.GrubLegacy.ListKernels | guestconv/converters/redhat.py:112-157 | the loop with the `checked` dict returns or raises what `Kernels` describes. Equal snapshots give equal lists, so listing twice gives the same list |
| GrubLegacyProbe.GrubLegacy.ResolveNodes | guestconv/converters/redhat.py:138-157 | the loop over the node paths, with the `checked` dict, returns or raises what `Resolve` describes from an empty `checked` |
| GrubLegacyLaws.Distinct | guestconv/converters/redhat.py:138-144 | the nodes the loop resolves: no node twice, and exactly the listed nodes not yet checked |
| GrubLegacyLaws.ResolveIsDistinctThenAll | guestconv/converters/redhat.py:138-155 | the loop resolves each distinct node once, at its first occurrence, in order |
| GrubLegacyLaws.ResolveAllSound | guestconv/converters/redhat.py:146-155 | every kept kernel exists and is the prefix plus the value of one of the nodes |
| GrubLegacyLaws.ResolveAllFailsOnlyOnQuery | guestconv/converters/redhat.py:146-149 | resolving fails exactly when reading one of the nodes fails |
| GrubLegacyLaws.KernelsResolveDistinctNodes | guestconv/converters/redhat.py:119-157 | the listing resolves the distinct nodes in first-occurrence order, and there are no more of them than distinct node paths |
| GrubLegacyLaws.KernelsSound | guestconv/converters/redhat.py:139-157 | every listed kernel exists and is `grub_fs + aug_get(n)` for a listed node `n`. There are at most as many kernels as distinct node paths |
| GrubLegacyLaws.KernelsTolerateMissingFiles | guestconv/converters/redhat.py:150-155 | once the nodes are listed and readable, the listing succeeds, however many kernels are missing |
| GrubLegacyLaws.ResolveAppend | guestconv/converters/redhat.py:138-145 | resolving `a + b` resolves `a`, then `b` with the nodes of `a` already checked |
| GrubLegacyLaws.DefaultEntryFirst | guestconv/converters/redhat.py:119-136 | the default entry's kernels come first, then file order without the default entry's nodes. A failure reading `default`, or querying that entry's kernel node, leaves exactly the file-order result |
| GrubLegacyLaws.DefaultNodeOnceAtFront | guestconv/converters/redhat.py:119-145 | the default entry's node is resolved first and never again |
| Grub2Probe.Order | guestconv/converters/redhat.py:164-177 | a non-empty default is element 0, and no later element equals it or is filtered out. The rest are the glob results in glob order (a subsequence) |
| Grub2Probe.Candidates | guestconv/converters/redhat.py:172-174 | definition: the three glob results in the order the loop visits them; `OthersLaws` relates the listing to it |
| Grub2Probe.Others | guestconv/converters/redhat.py:172-177 | definition: the glob results the loop appends; `OthersLaws` states it is a subsequence with the kept entries at their multiplicity |
| Grub2Probe.IsBackupAsWritten | guestconv/converters/redhat.py:175-176 | the filter as written matches only at the start of the path, so a path it matches starts with `.` |
| Grub2Probe.IsBackupName | guestconv/converters/redhat.py:175-176 | definition: the intended filter, a `.rpmsave`, `.rpmnew` or `.dpkg-…` suffix; `KernelsExcludeBackups` uses it |
| Grub2Probe.KernelsAsWritten | guestconv/converters/redhat.py:161-179 | definition: list_kernels with the filter as written; `KernelsAsWrittenKeepBackups` states what it keeps |
| Grub2Probe.Kernels | guestconv/converters/redhat.py:161-179 | definition: list_kernels with the intended filter; `KernelsExcludeBackups` characterises it |
| Grub2Probe.OthersLaws | guestconv/converters/redhat.py:172-177 | the appended glob results are a subsequence of the three globs. Each path that is neither the default nor a backup appears as often as the globs return it, so a path two patterns return appears twice |
| Grub2Probe.KernelsExcludeBackups | guestconv/converters/redhat.py:161-179 | list_kernels succeeds exactly when grubby answers. After the default come exactly the glob results that are neither the default nor named with a `.rpmsave`, `.rpmnew` or `.dpkg-*` suffix, each as often as globbed, in order |
| Grub2Probe.AsWrittenKeepsAbsolutePaths | guestconv/converters/redhat.py:175-176 | the filter as written never removes an absolute path |
| Grub2Probe.KernelsAsWrittenKeepBackups | guestconv/converters/redhat.py:172-177 | as written, every glob result other than the default is listed, backups included |
| Grub2Probe.FiltersAgreeWithoutBackups | guestconv/converters/redhat.py:175-176 | when no glob result is a backup, the filter as written and the suffix test give the same list |
| Grub2Probe.ScanKernels | guestconv/converters/redhat.py:161-179 | the loop appending to `kernels` returns or raises what `Kernels` describes |
| Grub2Probe.Grub2Bios.Recognise | guestconv/converters/redhat.py:183-189 | recognised exactly when `/boot/grub2/grub.cfg` exists; otherwise `BootLoaderNotFound` |
| Grub2Probe.Grub2Bios.ListKernels | guestconv/converters/redhat.py:161-179 | the inherited list_kernels, as `Kernels` describes |
| Grub2Probe.EspSearch | guestconv/converters/redhat.py:200-209 | the device loop as written fails only with UnboundLocalError, and a disk it finds is a listed device whose partition 1 has the ESP type |
| Grub2Probe.FirstEspIsFirst | guestconv/converters/redhat.py:200-209 | the corrected search finds a disk exactly when some device's partition 1 has the ESP type, and then it finds the first such device |
| Grub2Probe.EspSearchAgrees | guestconv/converters/redhat.py:200-209 | once `guid` holds a non-ESP value, the loop as written finds the same disk as the corrected search |
| Grub2Probe.EspSearchAsWritten | guestconv/converters/redhat.py:200-209 | the loop as written agrees with the corrected search when there is no device or the first device has a GPT type; otherwise it raises UnboundLocalError |
| Grub2Probe.FirstConfig | guestconv/converters/redhat.py:222-226 | a config found is one of the `find` results and ends in `/grub.cfg` |
| Grub2Probe.FirstConfigIsFirst | guestconv/converters/redhat.py:222-226 | the config is the first `find` result ending in `/grub.cfg`, and there is none exactly when no result ends so |
| Grub2Probe.EfiFrom | guestconv/converters/redhat.py:211-230 | a search failure passes through. No disk, an unmounted partition 1, or a mount point where no `find` result ends in `/grub.cfg` is `BootLoaderNotFound`. A failing `find` is passed on. Success means partition 1 is mounted and the config is the mount point plus a `find` result ending in `/grub.cfg` |
| Grub2Probe.EfiLocateLaws | guestconv/converters/redhat.py:193-230 | EFI recognition fails only with `BootLoaderNotFound` or a `find` failure. It is `BootLoaderNotFound` exactly when no device has an ESP, or its partition 1 is not mounted, or no `find` result under the mount point ends in `/grub.cfg`. It is a GuestFS failure exactly when that `find` fails. When it succeeds, the disk is the first ESP device and the config is the first grub.cfg under its mount point |
| Grub2Probe.FirstEsp | guestconv/converters/redhat.py:197-209 | definition: the device loop with a device lacking a GPT partition 1 skipped; `FirstEspIsFirst` states that it finds the first ESP device |
| Grub2Probe.EfiLocate | guestconv/converters/redhat.py:193-230 | definition: Grub2EFI.__init__ with that device loop; `EfiLocateLaws` states its outcomes |
| Grub2Probe.EfiLocateAsWritten | guestconv/converters/redhat.py:193-230 | definition: Grub2EFI.__init__ with `next` doing nothing; `EfiAsWrittenVersusIntended` compares it with `EfiLocate` |
| Grub2Probe.EfiAsWrittenVersusIntended | guestconv/converters/redhat.py:200-209 | as written, recognition agrees with the corrected one unless the first device has no GPT partition 1; then it raises UnboundLocalError instead |
| Grub2Probe.Grub2Efi.Recognise | guestconv/converters/redhat.py:193-230 | the device loop, the mount lookup and the grub.cfg loop find what `EfiLocate` describes and store disk and config in the object |
| Grub2Probe.Grub2Efi.ListKernels | guestconv/converters/redhat.py:161-179 | the inherited list_kernels, as `Kernels` describes |
| Detection.Probe | guestconv/converters/redhat.py:264-265 | definition: constructing one variant, as the signature it would hold or the error it raises; `DetectLaws` relates each variant to its recognition |
| Detection.DetectFrom | guestconv/converters/redhat.py:263-270 | the loop over the variants never ends in `BootLoaderNotFound` |
| Detection.Detect | guestconv/converters/redhat.py:262-270 | definition: the loop over GrubLegacy, Grub2BIOS and Grub2EFI in that order; `DetectLaws` states the priority and the outcomes |
| Detection.DetectFromFirstMatch | guestconv/converters/redhat.py:263-267 | first match: the result is the outcome of the first variant that does not report "not found", whatever the later variants would do |
| Detection.DetectFromExhausted | guestconv/converters/redhat.py:263-270 | when every variant reports "not found", the result is the ConversionError naming the root |
| Detection.DetectLaws | guestconv/converters/redhat.py:262-270 | legacy GRUB wins whenever it has a config file. GRUB2/BIOS wins exactly when legacy is absent and `/boot/grub2/grub.cfg` exists, and GRUB2/EFI only when both are absent. "No bootloader for root" holds exactly when all three report not found, and any other EFI failure propagates unchanged |
| Detection.Construct | guestconv/converters/redhat.py:264 | constructing one variant gives the object whose discovered state is what that variant's recognition describes, built for the given guest and root |
| Detection.InspectBootloader | guestconv/converters/redhat.py:262-270 | the loop over the three classes returns the object or raises what `Detect` describes |
| Scenarios.AugeasSingleErrorNode | guestconv/converters/redhat.py:33-66 | one error node with message, line, char and pos details gives a ConversionError: the original error, the header with the message, and the position line |
| Scenarios.LegacyLocate | guestconv/converters/redhat.py:84-106 | a guest with grub.conf and a separate /boot mount: the config is grub.conf and the prefix `/boot` |
| Scenarios.LegacyDefaultMatchesNothing | guestconv/converters/redhat.py:119-157 | grub.conf with two titles, where the default entry's query finds nothing: the list is `/boot/vmlinuz-a`, `/boot/vmlinuz-b` in file order |
| Scenarios.LegacyDefaultMatchesFirstTitle | guestconv/converters/redhat.py:119-157 | the same guest when the default entry's query finds the first title: that node is resolved once and the list is unchanged |
| Scenarios.LegacySameKernelTwice | guestconv/converters/redhat.py:138-155 | two titles naming the same kernel both contribute it, because de-duplication is by node |
| Scenarios.Grub2RpmsaveListed | guestconv/converters/redhat.py:172-177 | with globs `/boot/vmlinuz-5.1` and `/vmlinuz-5.1.rpmsave`, the code as written lists both; the suffix test lists only `/boot/vmlinuz-5.1` |
| Scenarios.EfiUnassignedGuid | guestconv/converters/redhat.py:200-207 | with a first device that is not GPT and an ESP on the second, the code as written raises UnboundLocalError, which differs from the corrected search |
| Scenarios.EfiSkipsUnpartitioned | guestconv/converters/redhat.py:200-230 | on the same guest the corrected search skips the first device and finds the second disk and `/boot/efi/EFI/fedora/grub.cfg` |
| Scenarios.LegacyBeforeGrub2 | guestconv/converters/redhat.py:263-265 | a guest with both `/boot/grub/grub.conf` and `/boot/grub2/grub.cfg` is detected as legacy GRUB |
| Scenarios.NothingDetected | guestconv/converters/redhat.py:269-270 | a guest with no boot loader gives the ConversionError naming the root |

## Left out

- Logging is left out: `warn` for a missing kernel, `debug` for the EFI cases, and the `self._logger = root` slip in `Grub2BIOS.__init__`. None of these changes a result.
- `RedHat.__init__`, `RedHat.inspect` and `RedHat.convert` are left out. They are guestfs inspection calls, a `print` and a logging stub.
- guestconv/hwchooser.py and the repository's unit tests are not part of this model.
- Real guestfs and augeas behaviour is taken as given by the snapshot. This covers glob order, `find` order and paths, and how augeas indexes `title[N]`. Two consequences are not modelled. With augeas counting titles from 1, `title[0]` for `default=0` finds nothing. libguestfs `find` returns relative paths, so `mp + path` has no `/` between the two parts.
- Calls the snapshot treats as total are `exists`, `inspect_get_mountpoints`, `glob_expand`, `list_devices` and `mountpoints`. A RuntimeError from one of them is not modelled.
- The regexes are modelled as prefix and suffix tests. Three regex behaviours are not modelled:
  - `$` also matches before a final newline;
  - `.` does not match a newline;
  - the error-node path is put into the detail regex unescaped, so regex metacharacters in it are read as a pattern.
- Text.Strip: only the six ASCII whitespace characters are stripped. Unicode `strip()` also removes other Unicode spaces, which the model does not.
- The Python exception objects are modelled by their text. `raise ex` is modelled as the GuestFS error carrying the text of `ex`.
- Grubby.GetInitrd takes the guest as a parameter: the handle the boot-loader object holds. The three classes inherit it unchanged in the source.

## Findings

| source | as written | input that shows it | evidently intended | confidence | as-written member | corrected member |
|---|---|---|---|---|---|---|
| guestconv/converters/redhat.py:175-176 | `re.match` anchors the backup pattern at the start of the path, so no absolute path is ever filtered | globs returning `/boot/vmlinuz-5.1` and `/vmlinuz-5.1.rpmsave` with no grubby default: both are listed | skip paths ending in `.rpmsave`, `.rpmnew` or `.dpkg-*` (a search at the end of the name) | high; not executed | Scenarios.Grub2RpmsaveListed | Grub2Probe.KernelsExcludeBackups |
| guestconv/converters/redhat.py:200-207 | `next` alone on a line does nothing. A failed GPT lookup falls through to `guid == ...`, and `guid` is unassigned when that device is the first | devices `/dev/sda` (no GPT) and `/dev/sdb` (ESP): UnboundLocalError aborts detection | move on to the next device (`continue`) | high; not executed | Scenarios.EfiUnassignedGuid | Grub2Probe.EfiLocateLaws |
| guestconv/converters/redhat.py:73 | `get_initrd` reads `h`, which is neither a local nor a module name | any kernel path: NameError | read grubby's output through `self._h` | high; not executed | Grubby.InitrdAsWrittenNeverAgrees | Grubby.GetInitrd |
