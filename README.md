# apt-ostree: turning a Debian root filesystem into an OSTree tree

apt-ostree builds an OSTree commit from a Debian root filesystem. Before the
commit, `create_ostree` reshapes the tree in three stages:

1. `setup_boot` moves the kernel and initramfs from `boot` into
   `usr/lib/modules/<version>`. It moves `System.map*` files there as well.
2. `create_tmpfile_dir` writes a systemd-tmpfiles configuration. It holds one
   `L` rule per path that a package ships below `/var`.
3. `convert_to_ostree` changes the layout:
   - `sanitize_usr_symlinks` replaces links in `usr` that lead into `var`.
   - `var` moves to `usr/rootdirs/var`, and an empty `var` takes its place.
   - The kernel cruft links are removed.
   - `etc` becomes `usr/etc`.
   - `ostree` and `sysroot` are created.
   - The top-level state directories become links.

The project also models the two edits apt-ostree makes to the `Components:`
line of an apt `distributions` file.

## How the model is built

- **The filesystem.** It is a value, `FileTree.Tree`. That is a map from paths
  below the root (sequences of names) to directories, files and symbolic links.
- **System calls.** `os.mkdir`, `os.rename`, `os.remove`/`os.unlink`,
  `os.link`, `os.symlink`, `shutil.copytree(symlinks=True)`, `shutil.rmtree`
  and `shutil.move` are pure functions on trees. Each returns `Ok(tree)` or
  `Err`, under the conditions the call itself fails on.
- **Stage functions.** Each stage is a function returning `Run(tree, outcome)`.
  The outcome is `Done`, or `Failed` with one of three reasons:
  - a failed `assert`;
  - `sys.exit(1)`;
  - an exception that propagates.

  The tree left at the failure point is kept. This matters because the source
  often fails half-way.
- **The object.** `Bootstrap.RootFs` is a class whose field `tree` is the root
  filesystem. It has one method per stage, with loops where the source loops.
  Each method is proved to leave `tree` and `outcome` as its stage function
  says. The lemmas state what those functions guarantee.
- **Inputs instead of host calls.** The host decides some things the tree
  cannot. They become parameters:
  - the order of `os.listdir(boot)`;
  - the files `os.walk(usr)` reports, in order;
  - the components of `rootdir`;
  - the apt cache, as a sequence of `(name, installed_files)` packages.
- **Text files.** A `distributions` file is a sequence of lines, each line
  keeping its newline. `str.split()` with no argument is `Strings.Words`,
  which splits on whitespace runs.

## Model

| member | source | states |
|---|---|---|
| PathResolution.GetToplevel | apt_ostree/bootstrap.py:284-290 | the loop of `os.path.split` calls ends with the first non-empty component of the path (`x` for both `x/y` and `/x`), or the whole path when it has no slash |
| PathResolution.ToplevelIsVar | apt_ostree/bootstrap.py:262-271 | the top level of `relpath(target, rootdir)` is `var` exactly when the normalised target lies strictly below `rootdir` and its first name there is `var` |
| PathResolution.RelativeLinkInsideUsr | apt_ostree/bootstrap.py:256-265 | a relative link found below `usr` always passes the `commonpath` test, because that test compares the joined components without resolving `..`: `../../var/lib/x` at `usr/lib/foo` leads to `var/lib/x` yet is kept |
| PathResolution.NormalizeClimb | apt_ostree/bootstrap.py:258-265 | an absolute target `/usr/../var/...` normalises to `rootdir/var/...` |
| Sanitize.ReplacedExactly | apt_ostree/bootstrap.py:252-271 | an entry is replaced if and only if it is a symbolic link whose target is not inside `usr` and whose normalised target has `var` as its top level below `rootdir` |
| Sanitize.RelativeLinksAreKept | apt_ostree/bootstrap.py:256-265 | a link with a relative target is never replaced |
| Sanitize.AbsoluteLinkIntoVarIsReplaced | apt_ostree/bootstrap.py:257-271 | a link `/var/<rest>` is replaced by the entry `var/<rest>` |
| Sanitize.ClimbingLinkIntoVarIsKept | apt_ostree/bootstrap.py:257-265 | a link `/usr/../var/<rest>` names `var/<rest>` once normalised, yet it is kept, because the `commonpath` test reads the target before normalisation |
| Sanitize.ReplaceByFile | apt_ostree/bootstrap.py:274-276 | removing a link and hard-linking a file target puts that file's node at the link's path, keeps the tree well formed and changes nothing else |
| Sanitize.ReplaceByDir | apt_ostree/bootstrap.py:274-278 | removing a link and copying a directory target puts a copy of the whole subtree at the link's path, keeps the tree well formed and changes nothing else |
| Sanitize.ReplaceByNothing | apt_ostree/bootstrap.py:273-279 | a target that is neither file nor directory leaves the link removed and nothing in its place |
| Sanitize.SanitizeOneEffect | apt_ostree/bootstrap.py:249-282 | one iteration on a walked entry succeeds, keeps the tree well formed, and leaves at that entry exactly its replacement (the old entry, the target file, a copy of the target directory, or nothing) |
| Sanitize.SanitizeKeepsNonLinks | apt_ostree/bootstrap.py:249-282 | on a well-formed tree the sanitisation keeps every entry that is not a symbolic link, with its node: only links are replaced, and nothing lies below a walked file |
| Sanitize.SanitizeWalkEffect | apt_ostree/bootstrap.py:245-282 | over a walk of distinct non-directory entries, the sanitisation succeeds, keeps the tree well formed, changes nothing outside the walked entries, and leaves each entry as its replacement computed from the tree it started from |
| Sanitize.SanitizeOneFrame | apt_ostree/bootstrap.py:273-282 | one iteration touches nothing outside the entry it visits |
| Sanitize.SanitizeWalkFrame | apt_ostree/bootstrap.py:248-282 | paths outside every walked entry are untouched, even when an iteration fails |
| Conversion.SanitizeFails | apt_ostree/bootstrap.py:280-282 | the only way the sanitisation fails is `sys.exit(1)` |
| Conversion.SanitizeKeepsOutsideUsr | apt_ostree/bootstrap.py:245-282 | the sanitisation leaves every top-level entry other than `usr` unchanged, including `var` and `etc` |
| Conversion.MoveVarSucceedsExactly | apt_ostree/bootstrap.py:195-205 | in a well-formed tree, moving `var` succeeds if and only if `usr` is a directory, `usr/rootdirs` does not exist and `var` is a directory; any failure is a propagated exception |
| Conversion.MoveVarEffect | apt_ostree/bootstrap.py:195-205 | after the move, `usr/rootdirs/var` holds exactly what `var` held, `var` is an empty directory and `usr/rootdirs` is a directory |
| Conversion.MoveVarFrame | apt_ostree/bootstrap.py:195-205 | moving `var` changes nothing outside `var` and `usr/rootdirs` |
| Conversion.CruftRemoved | apt_ostree/bootstrap.py:185-213 | the cruft loop removes each cruft path that held a file or link, ignores the others, and leaves every other path unchanged |
| Conversion.EtcMoved | apt_ostree/bootstrap.py:217-218 | `shutil.move(etc, usr)`, when it succeeds, leaves at `usr/etc` exactly what `etc` held |
| Conversion.EtcMoveIsRename | apt_ostree/bootstrap.py:217-218 | with `usr` a directory, the move fails if `usr/etc` already exists and otherwise is a rename of `etc` to `usr/etc` |
| Conversion.PlaceholdersEffect | apt_ostree/bootstrap.py:220-227 | `ostree` becomes a directory unless a non-directory stands there, and then the shared `try` gives up and the tree is unchanged; `sysroot` becomes a directory when both names were free, and a non-directory at `sysroot` stays as it was |
| Conversion.PlaceholdersFrame | apt_ostree/bootstrap.py:221-227 | creating `ostree` and `sysroot` touches no other path |
| Conversion.SetLinkEffect | apt_ostree/bootstrap.py:240-243 | one link step succeeds if and only if a directory stands at the link's name inside a directory. On success the name holds the link. Any failure is a propagated exception. Only paths at or below the name change |
| Conversion.LinksSucceedExactly | apt_ostree/bootstrap.py:240-243 | for pairwise separate link names, the link loop succeeds if and only if every name is a replaceable directory in the tree it starts from |
| Conversion.LinksPlaced | apt_ostree/bootstrap.py:240-243 | after a successful loop every name holds a link with its own target |
| Conversion.LinksFrame | apt_ostree/bootstrap.py:240-243 | paths outside every link name are untouched by the loop |
| Conversion.TopLevelLinksSeparate | apt_ostree/bootstrap.py:230-239 | no name of `TOPLEVEL_LINKS` lies below another or above another's parent, so the steps cannot interfere |
| Conversion.SysrootAfterLayout | apt_ostree/bootstrap.py:220-243 | after a successful layout change, a `sysroot` that was absent or a directory is a directory: the link loop needs `ostree` to be a directory, so the `try` reached `sysroot`, and no later step touches it |
| Conversion.EtcKept | apt_ostree/bootstrap.py:195-243 | after a successful layout change, `usr/etc` holds exactly what `etc` held before it |
| Conversion.VarCopyKept | apt_ostree/bootstrap.py:205-243 | the steps after the move of `var` leave `usr/rootdirs/var` as the move made it |
| Conversion.VarStaysEmpty | apt_ostree/bootstrap.py:205-243 | the steps after the move of `var` keep `var` an empty directory |
| Conversion.LinksAllPlaced | apt_ostree/bootstrap.py:230-243 | after a successful layout change each of the eight top-level names is a link with its target |
| Conversion.LayoutConverted | apt_ostree/bootstrap.py:195-243 | a successful layout change leaves `var`'s old contents under `usr/rootdirs/var`, an empty `var`, a directory `usr/rootdirs`, `etc`'s old contents under `usr/etc`, all eight links, and a directory `sysroot` (the target of the `ostree` link) unless a non-directory stood there |
| Conversion.Converted | apt_ostree/bootstrap.py:183-243 | a successful `convert_to_ostree` on a well-formed tree gives the converted layout, stated against the tree before the sanitisation: `var` and `etc` are carried over unchanged, and `sysroot` is a directory unless a non-directory stood there |
| Conversion.PlainUsrKept | apt_ostree/bootstrap.py:195-243 | a successful layout change leaves every entry below `usr` outside `usr/rootdirs`, `usr/etc` and `usr/local` as it was; `usr/lib` is among them |
| Conversion.ConvertedKeepsPlainUsr | apt_ostree/bootstrap.py:183-243 | a successful `convert_to_ostree` on a well-formed tree keeps every entry below `usr` outside `usr/rootdirs`, `usr/etc` and `usr/local` that is not a link, with its node |
| Conversion.SecondRunFails | apt_ostree/bootstrap.py:183-243 | running the conversion on its own output always fails: the sanitisation exits, or `os.mkdir(usr/rootdirs)` raises because `usr/rootdirs` survives the sanitisation. The conversion is not re-runnable |
| BootSetup.ScanExactly | apt_ostree/bootstrap.py:304-320 | the scan of `boot` gets through if and only if the listing has at most one kernel, initramfs and device tree, and every kernel name holds a `-`. A scan that gets through has found the first entry of each kind, with the version after the kernel's first `-`. A scan that stops has failed |
| BootSetup.NoBootDirRaises | apt_ostree/bootstrap.py:304 | a missing `boot` directory makes `os.listdir` raise |
| BootSetup.NoKernelFails | apt_ostree/bootstrap.py:321 | with no `vmlinuz*` entry the stage fails, and when `boot` exists it fails by the kernel assertion |
| BootSetup.SuccessMeansOneKernel | apt_ostree/bootstrap.py:304-321 | a successful boot setup saw exactly one kernel, and its name holds a `-` |
| BootSetup.KernelInstalled | apt_ostree/bootstrap.py:323-328 | after a successful boot setup the kernel is at `usr/lib/modules/<version>/vmlinuz`, with the node it had in `boot`, and is gone from `boot` |
| BootSetup.InitrdInstalled | apt_ostree/bootstrap.py:330-336 | after a successful boot setup with an initramfs, it is at `usr/lib/modules/<version>/initramfs.img` and gone from `boot` |
| BootSetup.MissingVersionDirExits | apt_ostree/bootstrap.py:323-328 | the stage never creates `usr/lib/modules/<version>`: when the scan found a kernel and that directory is not a directory in the tree the scan left, the kernel rename fails, the program exits, and that tree is what remains |
| BootSetup.RenameNeedsVersionDir | apt_ostree/bootstrap.py:323-336 | a rename into a version directory that is not a directory exits and changes nothing |
| BootSetup.SuccessNeedsVersionDir | apt_ostree/bootstrap.py:304-336 | a successful stage found a kernel and its version directory already a directory |
| BootSetup.SucceedsWhen | apt_ostree/bootstrap.py:292-336 | the boot setup succeeds when `boot` is a directory, `usr/lib/modules` is a directory once `os.mkdir` has run, the listing holds one kernel (whose name has a `-`) and at most one initramfs and device tree, the kernel and initramfs it lists are in `boot`, the version directory is a directory in which `vmlinuz` and `initramfs.img` are free, and no `System.map*` entry bears the version as its name |
| BootSetup.SystemMapsMovedBeforeFailure | apt_ostree/bootstrap.py:304-321 | for a listing of distinct names without a kernel, with at most one initramfs and device tree, the stage fails its kernel assertion, yet every `System.map*` entry whose place in `usr/lib/modules` was free has already left `boot` for it |
| BootSetup.SetupBootFrame | apt_ostree/bootstrap.py:292-336 | the boot setup changes nothing outside `boot` and `usr/lib` |
| BootSetup.SetupBootKeepsWellFormed | apt_ostree/bootstrap.py:292-336 | the boot setup turns a well-formed tree into a well-formed tree, whether it succeeds or not |
| BootSetup.InstallKernelMovesInitrd | apt_ostree/bootstrap.py:330-336 | when an initramfs other than the kernel was found and both renames succeed, the initramfs's node from `boot` is at `usr/lib/modules/<version>/initramfs.img` and gone from `boot` |
| BootSetup.RenameIntoEffect | apt_ostree/bootstrap.py:323-336 | a successful rename into the version directory moves the node from `boot` to its new name there |
| Tmpfiles.CollectedExactly | apt_ostree/bootstrap.py:343-348 | a path is collected if and only if it starts with `/var` and some package owns it that also owns `/var` itself and is not among `excluded_packages` |
| Tmpfiles.RuleWrittenExactly | apt_ostree/bootstrap.py:355-365 | the rule for a path is written if and only if the path was collected and is not one of the six base paths |
| Tmpfiles.RulesExactly | apt_ostree/bootstrap.py:357-365 | every written line is the rule of some collected non-base path |
| Tmpfiles.RuleDeterminesPath | apt_ostree/bootstrap.py:365 | distinct paths give distinct rules |
| Tmpfiles.NothingCollectedChangesNothing | apt_ostree/bootstrap.py:349-350 | when no package contributes, the stage succeeds and the tree is unchanged, an old configuration file included |
| Tmpfiles.ConfWritten | apt_ostree/bootstrap.py:351-365 | after a successful stage that collected something, the configuration file holds the header and the rules, and nothing else changed |
| Tmpfiles.TmpfilesFrame | apt_ostree/bootstrap.py:339-365 | the stage touches no path but the configuration file |
| Tmpfiles.TmpfilesKeepWellFormed | apt_ostree/bootstrap.py:351-365 | the stage keeps the tree well formed |
| Bootstrap.RootFs.RenameInto | apt_ostree/bootstrap.py:323-336 | the rename into `usr/lib/modules/<version>` leaves the tree and outcome its specification function gives |
| Bootstrap.RootFs.ScanEntry | apt_ostree/bootstrap.py:305-320 | one iteration of the `os.listdir` loop either stops with the failure `BootSetup.ScanItem` gives or carries on with the scan state it gives |
| Bootstrap.RootFs.InstallKernel | apt_ostree/bootstrap.py:323-336 | the kernel rename and the optional initramfs rename act as `BootSetup.InstallKernel` |
| Bootstrap.RootFs.SetupBoot | apt_ostree/bootstrap.py:292-336 | the `os.listdir` loop and the renames leave the tree and outcome `BootSetup.SetupBoot` gives |
| Bootstrap.RootFs.CollectVarDirs | apt_ostree/bootstrap.py:343-348 | the loop over the cache collects exactly `Tmpfiles.Collected`: the `/var` files of each non-excluded package owning `/var`, in cache order |
| Bootstrap.RootFs.CreateTmpfileDir | apt_ostree/bootstrap.py:339-365 | the collection loop, the unlink and the write loop leave the tree and outcome `Tmpfiles.CreateTmpfileDir` gives |
| Bootstrap.RootFs.SanitizeEntry | apt_ostree/bootstrap.py:249-282 | one iteration, which calls `GetToplevel`, acts as `Sanitize.SanitizeOne` |
| Bootstrap.RootFs.SanitizeUsrSymlinks | apt_ostree/bootstrap.py:245-282 | the walk loop, stopping at `sys.exit`, acts as `Sanitize.SanitizeWalk` |
| Bootstrap.RootFs.MoveVar | apt_ostree/bootstrap.py:195-205 | the four calls act as `Conversion.MoveVar` |
| Bootstrap.RootFs.MakePlaceholders | apt_ostree/bootstrap.py:221-227 | the two `mkdir` calls in one `try` act as `Conversion.Placeholders` |
| Bootstrap.RootFs.SetTopLevelLinks | apt_ostree/bootstrap.py:230-243 | the link loop acts as `Conversion.SetLinks` over `TOPLEVEL_LINKS` |
| Bootstrap.RootFs.RemoveCruft | apt_ostree/bootstrap.py:209-213 | the loop over `CRUFT`, ignoring `OSError`, acts as `Conversion.RemoveCruft` |
| Bootstrap.RootFs.ConvertToOstree | apt_ostree/bootstrap.py:183-243 | the whole conversion, with its cruft loop, acts as `Conversion.ConvertToOstree` |
| Bootstrap.RootFs.CreateOstree | apt_ostree/bootstrap.py:171-181 | the three stages in order, stopping at the first failure, act as `Bootstrap.OstreeStages` |
| Bootstrap.UntouchedBeforeConversion | apt_ostree/bootstrap.py:171-179 | the boot and tmpfiles stages change nothing outside `usr` and `boot` |
| Bootstrap.StagesConvert | apt_ostree/bootstrap.py:171-181 | a successful `create_ostree` on a well-formed tree leaves `var`'s original contents under `usr/rootdirs/var`, an empty `var`, `etc`'s original contents under `usr/etc`, the eight top-level links, and a directory `sysroot` unless a non-directory stood there from the start |
| Bootstrap.StagesKeepPlainUsr | apt_ostree/bootstrap.py:171-181 | a successful `create_ostree` on a well-formed tree keeps every entry below `usr` outside `usr/rootdirs`, `usr/etc` and `usr/local` that is not a link as the boot and tmpfiles stages left it, the kernels below `usr/lib/modules` and the tmpfiles configuration among them |
| Bootstrap.StagesInstallKernel | apt_ostree/bootstrap.py:171-181 | after a successful `create_ostree` the kernel of `boot`, unless it was a link, is at `usr/lib/modules/<version>/vmlinuz` in the final tree, with the node it had in `boot` |
| Bootstrap.StagesKeepTmpfilesConf | apt_ostree/bootstrap.py:171-181 | after a successful `create_ostree` that collected `/var` paths, `usr/lib/tmpfiles.d/ostree-integration-autovar.conf` in the final tree holds the header and the rules |
| Bootstrap.BootFailureStopsRun | apt_ostree/bootstrap.py:171-176 | when the boot setup fails, `create_ostree` fails and `var` is untouched |
| Distributions.CheckAndAppendComponent | apt_ostree/utils.py:165-177 | a missing file raises `FileNotFoundError` and nothing is written; otherwise the lines written are `Distributions.WithComponent` of the lines read |
| Distributions.AppendComponent | apt_ostree/utils.py:169-174 | the loop over the lines gives the file `Distributions.WithComponent` describes |
| Distributions.AppendEffect | apt_ostree/utils.py:169-174 | only the first `Components:` line can change, and the line count stays the same. With no such line the file is unchanged. Otherwise that line still starts with `Components:` and lists the old components, with the new one added at the end when it was missing |
| Distributions.AppendIdempotent | apt_ostree/utils.py:165-177 | adding a component twice gives the same file as adding it once |
| Distributions.AppendedListing | apt_ostree/utils.py:173 | `line.strip() + " " + component + "\n"` lists the old components followed by the new one |
| Distributions.RemoveComponent | apt_ostree/utils.py:180-213 | the loop gives the outcome and file `Distributions.RemoveComponentFrom` describes: a missing file gives `False` with nothing written; no `Components:` line listing the component gives `False` with nothing written; otherwise `True` and the rebuilt lines |
| Distributions.RebuiltListing | apt_ostree/utils.py:195-198 | a rebuilt `Components:` line lists the old components with the first occurrence of the removed one taken out |
| Distributions.RemovedKeepsOtherLines | apt_ostree/utils.py:189-201 | the lines that are not `Components:` lines come through in order and unchanged |
| Distributions.RemovedLineOrigin | apt_ostree/utils.py:189-201 | every written line is an old line that is not a `Components:` line, or the rebuilt form of a `Components:` line that listed the component |
| Distributions.MentionsExactly | apt_ostree/utils.py:190-203 | the `component_found` flag the loop ends with is true if and only if some `Components:` line lists the component |
| Distributions.RemoveTwice | apt_ostree/utils.py:180-213 | when no line lists the component twice, a second removal reports `False` and writes nothing |
| Distributions.AppendThenRemove | apt_ostree/utils.py:173-198 | appending a component to a `Components:` line that lacks it, then removing it, gives back the original list |

## Left out

- `create_rootfs`, the `mmdebstrap` call and the rest of the repository are not part of this model.
- Reading the apt cache is left out. The cache is an input sequence of packages, in iteration order.
- The host decides which links `os.walk` reports as files: it follows absolute links against the host root. The walk of `usr` is therefore an input, required to list distinct non-directory entries.
- Sanitize.Classify: `os.path.isfile`/`isdir` follow links in the target; the model reads the normalised target's own entry, so a chain of links is not followed.
- The order of `os.listdir(boot)` and the components of `rootdir` are inputs.
- Permissions, ownership, timestamps and the `dir_perm` mode are not modelled. A hard link is modelled as a copy of the file's node, so later writes through one name are not seen through the other.
- The file descriptor `os.open(rootdir)` that is never closed is not modelled. Logging and the console status spinner are not modelled either.
- The `dtbs` path is found but never used by the source; the model records it and does nothing with it.
- `Path.mkdir(parents=True)` for `ostree` and `sysroot`: both are directly below the root, so creating parents never matters.
- The `assert rootdir` in `convert_to_ostree` is not modelled. `rootdir` is a path made of valid names and is never empty text.
- `conf.exists()` is false for a dangling link while `open(conf, "w")` would follow it. The model treats any non-directory entry at the configuration path as existing and unlinks it.
- PathResolution.GetToplevel requires that the path does not start with `//`. On such a path the source loop never ends, because `os.path.split("//")` returns `("//", "")`. `os.path.relpath` never produces such a path.
- Distributions.AppendIdempotent and Distributions.AppendEffect require a component without whitespace. With whitespace, `split()` sees several words, so the source appends it again on every call.
- Distributions.RemoveTwice: a line listing the component twice loses only one copy per call, so a second removal succeeds.
- File I/O in `utils.py` is modelled on the file's lines. `readlines`/`writelines`, encodings and a file vanishing between the read and the write are not modelled.
- FileTree does not follow a symbolic link that stands for a directory. A `boot` that is a link to a directory makes the model's `os.listdir` raise, and a parent that is such a link makes `os.mkdir`, `os.rename`, `os.link` and `os.symlink` fail. The source follows the link in each case and goes on.
- Conversion.PlaceholdersEffect: `Path.mkdir(exist_ok=True)` accepts an `ostree` that is a link to a directory, because it checks with `is_dir()`. The model treats that link as in the way, so it skips `sysroot` where the source creates it.
- Sanitize.ReplaceByDir: the links inside a copied directory keep their targets, including targets in `var`. The model copies them unchanged and states nothing about where they lead.
- BootSetup.SucceedsWhen: requires `vmlinuz` and `initramfs.img` to be free in the version directory, although `os.rename` also replaces a file standing there. It also requires that no `System.map*` entry bears the version as its name; the move of such an entry would fail on the existing version directory, but the model does not prove that case.
- Bootstrap.StagesInstallKernel: states nothing when the kernel in `boot` is a link, because the sanitisation of `usr` may replace that link.
- Exceptions other than the ones each call raises in the tree (`OSError` for a missing or wrong-kind entry) are not modelled.

## Where the code and its description differ

The model follows the code:

- `create_ostree` runs the boot setup first, then the tmpfiles rules, then the conversion.
- `setup_boot` moves each `System.map*` entry while it scans. So a listing without a kernel still loses its `System.map` files before the assertion fails (`BootSetup.SystemMapsMovedBeforeFailure`).
- `setup_boot` never creates `usr/lib/modules/<version>`. The renames fail, and the program exits, when the kernel packages did not create it (`BootSetup.MissingVersionDirExits`).
- `create_tmpfile_dir` takes a package into account only when it owns `/var` itself. It then records every file whose text starts with `/var`, so `/variety` counts too.
- When nothing is collected, an old configuration file is left as it is (`Tmpfiles.NothingCollectedChangesNothing`).
- `sanitize_usr_symlinks` never rewrites a relative link. `os.path.commonpath` compares the joined components without resolving `..`, so every relative link below `usr` looks as if it stays in `usr`, even `../../var/lib/x` at `usr/lib/foo`, which leads to `var/lib/x` (`PathResolution.RelativeLinkInsideUsr`).
- A link spelled `/usr/../var/...` is kept, even though it leads into `var` (`Sanitize.ClimbingLinkIntoVarIsKept`).
- `copytree(symlinks=True)` copies the links inside a replaced directory as they are, so a link in the copy that leads into `var` still does.
- In these three cases the code falls short of its docstring's promise (`Replace symlinks from /usr pointing to /var`, apt_ostree/bootstrap.py:245). The model follows the code and does not claim that promise.
- `remove_component_from_config` drops every `Components:` line that does not list the component.
- A line such as `Components:main` (no space after the colon) has `Components:main` as its first word. Its `main` is therefore not seen as listed.
