# Verified model of the rules_mkosi image tooling

rules_mkosi builds bootable disk images and checks what it built. This project models its self-contained algorithms
in Dafny 4.11 and proves what they are for. Files are byte sequences; a hash or a checksum is a function parameter,
and a binding result names the two messages that collide instead of assuming that none exist. Loops that the program
runs are Dafny methods with invariants; each is proved against a definition that does not mention the loop.

Check everything with `dafny verify dfyconfig.toml`.

The components, hardest results first:

- **dm-verity verifier** (`VerityLayout`, `Merkle`, `Verity`, `VerityProject`). The verifier recomputes the hash tree
  through spool files. It accepts exactly the artifacts that hold the tree of the root image, zeros elsewhere and
  the given root hash; one root hash and one superblock then fix both artifacts byte for byte, or an explicit
  collision is returned. At every moment at most two spools exist and their bytes stay in the budget that was checked
  on the first two levels only; the level limit fires for exactly one slot per block.
- **Archive links** (`LinkPaths`, `LinkSemantics`, `FileTree`, `RelativeLinks`, `KernelWalk`, `LinkGraph`,
  `Hardlinks`, `ExtractLinks`). The resolver restarts its component walk from the root at every link. It is proved to
  agree with the walk of the link map in place, and the dependencies of a crossed link are a contiguous run of the
  crossing link's dependencies. Hence the cycle error and the bound error cannot occur, and every link is created
  after all links it crosses. Over a tree of directories and files, both link phases succeed exactly when every link
  is acceptable and has a text and all link names can be placed, a condition that does not depend on the order of
  creation. In the tree they leave, an operating system that follows a link arrives at the resolved target if and only
  if every directory on the way stands, the target exists and the limit on crossed links is not passed; it arrives
  nowhere else, and when no link text steps back after a name, the directories always stand.
- **Debian lock** (`Versions`, `Packages`, `Resolver`). The two-index comparator is the lexicographic order of
  normalised keys, so it is a total preorder. The resolver succeeds exactly when the request is accepted and the run
  from its roots finishes, of which there is at most one; its lock is closed, grounded in its roots and never replaced
  a choice, and every edge leads to the first admissible candidate in order of preference. Every error names its
  cause: the selections that contradict each other, the missing names, the invalid version that was compared, or the
  first group of the run that nothing can satisfy.
- **GPT identity** (`Gpt`, `GptCanonical`, `GptIdentity`). One linear scan gives pairwise disjoint partitions, clear
  of headers and arrays. Two accepted images of one size have the same canonical form if and only if they agree
  outside the identity and checksum fields; the canonical image is accepted and is its own canonical form.
- **FAT reader** (`Fat`, `FatWalk`, `FatEntries`). All reads stay inside the partition, the walk ends and returns
  exactly the reachable files, and it fails exactly when a reachable directory is unreadable or two share a cluster;
  the second guard, the directory byte budget, is redundant. The one-pass collection of long name slots gives every
  entry the name of the run directly before it.
- **Authenticode and DER** (`Der`, `DerOid`, `SignedAttributes`, `SignedData`, `Pe`, `Authenticode`,
  `AuthenticodeStream`). Strict DER is a bijection. `prove_equivalence` accepts exactly the images made from the
  unsigned one by a new checksum, a new security directory, zero padding and one certificate; the hashed bytes are the
  unsigned ones and that padding, and their hash is what the PKCS#7 payload must carry.
- **Option scanner** (`PathValues`, `Options`, `OptionReattach`, `CommandLine`, `WorkingDirectory`). A second scan of
  rewritten arguments finds the same options with the mapped values, if and only if no attached short list value names
  nothing. They then declare the mapped paths if and only if no mapped path holds a separator of its option, which
  `os.path.abspath` guarantees exactly in working directories that hold none.
- **Framing** (`Framing`, `OpenPgp`, `EfiAuth`), **splicing** (`Splice`) and the **identity map handshake**
  (`Processes`, `RunnerHandshake`, `PreflightHandshake`, in `Handshake.dfy`).

Results that differ from what one might expect of the code:

- `CommandLine.CollapseChangesMeaning`: rewriting the empty include list `-I,` leaves `-I`, which then takes the next
  argument, such as the verb, as its value. `CommandLine.RescanExact` gives the exact condition.
- `WorkingDirectory.DirectoryWithSpace`: in the directory `/my dir` the argument `--include=a` is rewritten to one
  path that a second look takes for two. `WorkingDirectory.DirectoryExact` gives the directories in which this cannot
  happen, and `CommandLine.DeclaredCommutes` the arguments.
- `ExtractLinks.MissingOnTheWay` and `ExtractLinks.FileOnTheWay`: the links `missing/../f` and `f/../g` pass the
  dangling test, since the resolver steps over a name without looking at it, but following them leads to nothing.
  `LinkGraph.AcceptedLinkReaches` gives the exact condition, and `KernelWalk.TidyLinksReach` one on the archive alone.
- `ExtractLinks.EmptyLink`: a link with an empty text resolves to the root, is accepted, and cannot be created.
- `ExtractLinks.LinkBelowLink`, `ExtractLinks.LinkAboveLink` and `ExtractLinks.HardlinkBelowFile`: archives whose links
  all resolve to free names, and that are refused because of what lies above a link.
- `OpenPgp.OversizedKey`: a well-formed certificate whose key is too long for a fingerprint, which fails with another
  error than the documented one.
- `EfiAuth.OneCertificateIsList`: a list built for an empty certificate is not read back; for every other it is.
- `Authenticode.AuthenticodeHash`: for a signed image that was not compared with its unsigned form the second overlap
  guard is live; it fires exactly when the last section reaches into the certificate table
  (`AuthenticodeStream.OverlapIsPossible` is such an image).

## Model

| member | source | states |
|---|---|---|
| `LinkPaths.ResolveLinkPath` | mkosi/debian/extract_tree.py:190-226 | the loop over mutable component lists ends, computes the component walk, and never reports that it exceeded its bound |
| `LinkPaths.Decouple` | mkosi/debian/extract_tree.py:197-226 | a walk that succeeds with more components behind it and more links crossed before it also succeeds alone, crossing a contiguous part of the same links |
| `LinkPaths.SuffixTheorem` | mkosi/debian/extract_tree.py:197-226 | if resolving a link crosses d as its i-th dependency, resolving d alone succeeds and its dependencies are the contiguous run after d |
| `LinkPaths.DependenciesDescend` | mkosi/debian/extract_tree.py:197-254 | dependencies are links, occur once, never include the link itself, and each has strictly fewer dependencies |
| `LinkSemantics.WalkIsInPlace` | mkosi/debian/extract_tree.py:200-226 | from a clean directory the walk that restarts at the root and the walk of the link map in place reach the same place over the same links; neither asks whether anything but a link exists |
| `LinkSemantics.ResolutionIsExact` | mkosi/debian/extract_tree.py:190-226 | the resolver accepts a link with a target and dependencies if and only if the unguarded walk of the link map in place ends there, crosses those links, and crosses none twice |
| `LinkSemantics.TargetIsClean` | mkosi/debian/extract_tree.py:197-226 | a resolved target stays inside the root, and neither it nor any prefix of it is a symbolic link |
| `LinkGraph.SymlinkGraph.Visit` | mkosi/debian/extract_tree.py:235-250 | the visit ends, never meets a link that is being visited, finishes every dependency, and fails only when some link is not acceptable |
| `LinkGraph.SymlinkGraph.Finish` | mkosi/debian/extract_tree.py:245-250 | a resolved link is recorded as done unless it dangles without being allowed to |
| `LinkGraph.SymlinkGraph.Validate` | mkosi/debian/extract_tree.py:229-254 | validation succeeds exactly when every link resolves to something present or may dangle, and records target and dependencies of every link |
| `LinkGraph.DependenciesFirst` | mkosi/debian/extract_tree.py:257-266 | sorting by depth and name puts every link strictly after all links that resolving it crosses |
| `FileTree.Root.Parent` | mkosi/debian/extract_tree.py:60-72 | makes exactly the missing ancestors as directories, or fails, changing nothing, exactly when an ancestor is something else |
| `FileTree.Root.Place` | mkosi/debian/extract_tree.py:305-310 | creates a node below its parents exactly when no ancestor is anything but a directory and the name is free |
| `FileTree.Root.Symlink` | mkosi/debian/extract_tree.py:265-279 | creates a symbolic link below its parents exactly when no ancestor is anything but a directory, the name is free and the text is not empty |
| `FileTree.NextFits` | mkosi/debian/extract_tree.py:265-279 | after some names were placed, the next one can be placed exactly when it fits together with the old tree and them: not taken, not below and not above any of them |
| `FileTree.PlaceableInAnyOrder` | mkosi/debian/extract_tree.py:265-279 | whether a list of names can be placed does not depend on its order |
| `FileTree.PlaceableTogether` | mkosi/debian/extract_tree.py:375-383 | placing one set of names and then another needs exactly that both together can be placed |
| `RelativeLinks.RelativeTextReaches` | mkosi/debian/extract_tree.py:271-279 | the relative text written for an absolute link, walked in place from the link's directory, crosses no link and ends at the resolved target |
| `RelativeLinks.TextIsRelative` | mkosi/debian/extract_tree.py:271-279 | no written text is absolute, and one is empty exactly when the archive's is |
| `KernelWalk.WrittenWalk` | mkosi/debian/extract_tree.py:271-279 | rewriting the absolute links of the whole archive leaves the end of every walk that ends as it was |
| `KernelWalk.WrittenResolves` | mkosi/debian/extract_tree.py:257-279 | following a link by the written texts crosses it and ends where the archive text resolves to |
| `KernelWalk.KernelFollows` | mkosi/debian/extract_tree.py:265-279 | where an operating system ends that walks any path in a tree whose links are those of a map: at the end of the walk in place if every directory passed stands, the end exists and no more links are crossed than allowed, and nowhere otherwise |
| `KernelWalk.FollowingLink` | mkosi/debian/extract_tree.py:246-279 | following a created link leads to its resolved target if and only if every directory on the way stands, the target exists and at most n links are crossed, and otherwise to nothing |
| `KernelWalk.TidyLinksReach` | mkosi/debian/extract_tree.py:246-279 | when no link text of the archive steps back after a name, following any link leads to its target exactly when that exists and at most n links are crossed |
| `LinkGraph.AcceptedLinkReaches` | mkosi/debian/extract_tree.py:246-279 | a created link that may not dangle leads to its target if and only if every directory on its way stood in the tree before the links or is an ancestor of a link, and at most n links are crossed |
| `LinkGraph.CreateInOrder` | mkosi/debian/extract_tree.py:265-279 | creates every link of the order with its text below its parents, exactly when the names can be placed and no text is empty |
| `LinkGraph.OrderByDepth` | mkosi/debian/extract_tree.py:260-266 | the recursive depth is well founded on the validated graph, and the order of creation is sorted by it |
| `LinkGraph.CreateSymlinks` | mkosi/debian/extract_tree.py:257-279 | succeeds exactly when every link is acceptable and has a text, no link name is taken and no proper ancestor of one is a link or anything but a directory; every link is then created once, with its text, after its dependencies, and nothing else changes but missing parents |
| `Hardlinks.MemberPathNormal` | mkosi/debian/extract_tree.py:40-57 | a normalised member name has only components that a directory can hold |
| `Hardlinks.EndIsUnique` | mkosi/debian/extract_tree.py:282-310 | a chain of hard links has at most one end, and an endless one has none |
| `Hardlinks.HardlinkGraph.Visit` | mkosi/debian/extract_tree.py:286-302 | the visit returns the regular file at the end of the chain, and fails exactly when the chain has no end: a cycle, a missing or a non-regular member |
| `Hardlinks.LinkHardlinks` | mkosi/debian/extract_tree.py:282-310 | succeeds exactly when every chain has an end and the names can be placed; every hard link then is the very file at the end of its chain, in name order, and nothing else changes but missing parents |
| `ExtractLinks.CreateLinks` | mkosi/debian/extract_tree.py:375-383 | both link phases succeed exactly when every chain ends, every symbolic link is acceptable once the hard links exist and has a text, and all link names together can be placed; the links then stand with their texts |
| `ExtractLinks.LinkBelowLink` | mkosi/debian/extract_tree.py:60-72 | an archive with a link below a link: both acceptable, both names free, refused |
| `ExtractLinks.LinkAboveLink` | mkosi/debian/extract_tree.py:60-72 | an archive in which the parents of one link take the name of another: refused |
| `ExtractLinks.HardlinkBelowFile` | mkosi/debian/extract_tree.py:60-72 | a hard link below a file: its chain ends and its name is free, refused |
| `ExtractLinks.EmptyLink` | mkosi/debian/extract_tree.py:265-279 | an archive whose only link has an empty text: acceptable, its name free, refused |
| `ExtractLinks.MissingOnTheWay` | mkosi/debian/extract_tree.py:197-226 | a link through a missing directory: accepted, with an existing target, and following it leads to nothing |
| `ExtractLinks.FileOnTheWay` | mkosi/debian/extract_tree.py:197-226 | the same for a link through a regular file |
| `Versions.CompareNonDigits` | mkosi/debian/generate_lock.py:86-97 | the non-digit loop has the sign of the order of the two texts' keys |
| `Versions.CompareDigits` | mkosi/debian/generate_lock.py:100-121 | skipping zeros and comparing in step has the sign of the order of the two numbers, and makes progress |
| `Versions.CompareFragment` | mkosi/debian/generate_lock.py:124-132 | the streaming comparison ends and has the sign of the lexicographic order of the normalised keys |
| `Versions.CompareVersions` | mkosi/debian/generate_lock.py:135-158 | fails exactly for an invalid epoch, with the error of the left version first, and otherwise has the sign of the version order |
| `Versions.LexTransitive` | mkosi/debian/generate_lock.py:76-132 | the key order is transitive, strictly as soon as one step is strict, with zeros for missing positions |
| `Versions.VersionOrderTransitive` | mkosi/debian/generate_lock.py:148-158 | the version order is transitive, strictly as soon as one step is |
| `Versions.VersionOrderReflexive` | mkosi/debian/generate_lock.py:148-158 | a version compares equal to itself |
| `Versions.VersionOrderAntisymmetric` | mkosi/debian/generate_lock.py:148-158 | comparing in the other direction gives the opposite sign |
| `Versions.VersionSatisfies` | mkosi/debian/generate_lock.py:161-177 | the seven operators of a relation, two of them old spellings, are their tests of the version order; fails exactly for an invalid version and reports that one |
| `Versions.EqualVersionsSatisfyAlike` | mkosi/debian/generate_lock.py:161-177 | versions that compare equal satisfy the same relations |
| `Packages.BuildUniverse` | mkosi/debian/generate_lock.py:313-336 | the universe holds exactly the given records up to the component of duplicates, every name newest first, providers by priority and name; it fails exactly when two records clash, and names them, or when a name has several records and one has no valid version, and reports such a version |
| `Packages.NewestIsMaximum` | mkosi/debian/generate_lock.py:322-345 | no package of the name is newer than the one that `newest` returns |
| `Packages.CheckConstraint` | mkosi/debian/generate_lock.py:359-371 | a version against a constraint: the answer of the version order, or an error exactly when a version that has to be compared is invalid, with the error of that version |
| `Packages.Candidates` | mkosi/debian/generate_lock.py:348-372 | returns the specified list of candidates, and fails exactly when one of the versions that this has to compare is invalid, reporting it |
| `Packages.CandidatesSatisfy` | mkosi/debian/generate_lock.py:348-372 | the candidates are exactly the packages of the universe that satisfy the relation |
| `Packages.CandidatesInPreference` | mkosi/debian/generate_lock.py:322-336 | real packages come first, newest first, then providers by priority and name, and no package twice |
| `Resolver.Closure.Select` | mkosi/debian/generate_lock.py:387-398 | refuses exactly to replace a selection by another package; a new name is selected and queued |
| `Resolver.SelectBootstrap` | mkosi/debian/generate_lock.py:401-406 | every bootstrap name is selected at its newest version and no conflict can arise |
| `Resolver.SelectRequested` | mkosi/debian/generate_lock.py:409-426 | every requested name is selected as the rules say; otherwise the run stops at the first name that is ambiguous or whose choice is not what is selected under its name, and names both packages; the missing names reported are exactly those that nothing satisfies |
| `Resolver.FirstCandidate` | mkosi/debian/generate_lock.py:431-438 | the first admissible candidate of all alternatives in order of preference, or none exactly when none is admissible; fails exactly when an invalid version has to be compared before one is found, and reports it |
| `Resolver.SatisfyingCandidate` | mkosi/debian/generate_lock.py:429-439 | the first alternative that is selected already wins; otherwise the first with a free name; none exactly when every alternative's name is taken by another package; fails exactly when an invalid version is met first |
| `Resolver.PickIsFirst` | mkosi/debian/generate_lock.py:429-439 | the candidate picked for a group is the first admissible one of the ranked list, selected ones before free ones |
| `Resolver.SatisfyGroup` | mkosi/debian/generate_lock.py:456-464 | inside the worklist a group is satisfied by the picked candidate, with an edge to it, or stops the run exactly when an invalid version is met or nothing can be picked; a conflict is impossible |
| `Resolver.ProcessNext` | mkosi/debian/generate_lock.py:454-464 | one turn satisfies all groups of a package in order, each by its pick, or stops at the first for which there is none and says why; the pending names and the queue decrease together |
| `Resolver.Resolve` | mkosi/debian/generate_lock.py:442-465 | ends; succeeds exactly when the request is accepted and the run from its roots finishes, with the lock of that run: every dependency group is satisfied by itself or an edge, every package is reachable from a root, bootstrap names are at their newest version, no selection was replaced; otherwise the error is that of the request, or says why the first group that stops the run does: an invalid version, or every alternative shut out by another version of its name |
| `Resolver.RunsAgree` | mkosi/debian/generate_lock.py:452-465 | of two runs from the same roots one continues the other |
| `Resolver.LockDetermined` | mkosi/debian/generate_lock.py:442-465 | two finished runs from the same roots are the same, so universe and request determine the lock |
| `VerityLayout.SlotSizeExact` | mkosi/private/verity_metadata.py:33-42 | the slot is the smallest power of two that holds a digest and always divides the hash block, so that error never occurs |
| `VerityLayout.TreeDepth` | mkosi/private/verity_metadata.py:92-101 | with two or more slots per block, 2^k digests need at most k levels |
| `VerityLayout.LevelCounts` | mkosi/private/verity_metadata.py:92-101 | the counts are those of the tree, at most 32, and the level limit fires exactly for one slot per block and more than one data block |
| `VerityLayout.LevelOffsets` | mkosi/private/verity_metadata.py:116-124 | every level starts after all higher levels, and the tree size is their sum |
| `VerityLayout.LevelsContiguous` | mkosi/private/verity_metadata.py:116-124 | every level ends where the one below starts |
| `VerityLayout.AdjacentLevelsFit` | mkosi/private/verity_metadata.py:108-113 | the first two levels bound every two consecutive ones, so the budget checked on them holds throughout |
| `Merkle.UpBinds` | mkosi/private/verity_metadata.py:75-79 | equal upper levels come from equal lower levels, or an explicit collision is returned |
| `Merkle.DataBinds` | mkosi/private/verity_metadata.py:75-101 | equal Merkle roots under one geometry mean equal covered data, or an explicit collision of the salted hash |
| `Merkle.TreeLength` | mkosi/private/verity_metadata.py:92-124 | the stored tree has exactly the length that the level counts give |
| `Verity.LeafDigests` | mkosi/private/verity_metadata.py:82-89 | spools the digest of every data block, and fails exactly when the image is too short |
| `Verity.ExpectedBlock` | mkosi/private/verity_metadata.py:127-139 | packs the next digests of the spool below; the spool is never too short |
| `Verity.VerifyLevel` | mkosi/private/verity_metadata.py:149-161 | accepts exactly when the emitted level holds the packed digests below it, and then has spooled its own digests, within the budget |
| `Verity.VerifyLevels` | mkosi/private/verity_metadata.py:192-204 | accepts exactly when the image holds the whole tree, leaves the root digest as the only spool, and never has more than two spools or more bytes than the budget |
| `Verity.VerifyTree` | mkosi/private/verity_metadata.py:184-207 | accepts exactly the genuine tree, returns the recursive Merkle root and the tree size, removes every spool on every path, and keeps to two spools and the budget; the level limit fires exactly for one slot per block |
| `VerityProject.SuperblockSound` | mkosi/private/verity_metadata.py:45-72 | an accepted superblock gives a geometry whose slots fit |
| `VerityProject.Project` | mkosi/private/verity_metadata.py:260-296 | accepts exactly when sizes and superblock are accepted and the artifacts are canonical, and reports geometry, levels and tree extent |
| `VerityProject.RootHashBinds` | mkosi/private/verity_metadata.py:184-207 | two root images of one size accepted with one root hash and geometry are identical, or the returned messages collide |
| `VerityProject.HashImageUnique` | mkosi/private/verity_metadata.py:242-273 | superblock, size and root image determine the hash image byte for byte |
| `VerityProject.ArtifactsUnique` | mkosi/private/verity_metadata.py:260-273 | one root hash and one superblock fix both artifacts, up to a collision |
| `VerityProject.PayloadIsLossless` | mkosi/private/sysupdate.py:199-208 | the artifacts cut to the verity extents and extended with zeros are the accepted artifacts |
| `Gpt.HeaderFacts` | mkosi/private/partition_metadata.py:119-144 | a header that is read lies at its place, passes every check of bytes, geometry, location and both checksums, and so does its array |
| `Gpt.ScanIsWellPlaced` | mkosi/private/partition_metadata.py:203-232 | comparing each entry with the previous one puts all partitions in order, pairwise disjoint, aligned and inside the usable range |
| `Gpt.ProjectImage` | mkosi/private/partition_metadata.py:258-282 | the linear scan returns exactly the specified partitions of the validated table, well placed, and fails exactly when they do not exist |
| `GptCanonical.ClearGuids` | mkosi/private/partition_metadata.py:325-331 | the in-place loop clears the unique GUID of every entry and nothing else |
| `GptCanonical.CanonicalHeaderChecks` | mkosi/private/partition_metadata.py:285-291 | a canonical header passes the header checks, with a checksum of its own unsealed form |
| `GptCanonical.PatchesSeparated` | mkosi/private/partition_metadata.py:58-101 | the two headers and two arrays lie in disk order, disjoint and inside the image, around the usable range |
| `GptCanonical.PartitionsClear` | mkosi/private/partition_metadata.py:58-101 | no partition touches a header or an array |
| `GptCanonical.CanonicalAccepted` | mkosi/private/partition_metadata.py:159-177 | the canonical image passes both validations and has the canonical table |
| `GptIdentity.CanonicalIdempotent` | mkosi/private/partition_metadata.py:319-338 | the canonical image is its own canonical form |
| `GptIdentity.CanonicalProjects` | mkosi/private/partition_metadata.py:258-282 | the canonical image is accepted exactly as the image is, and projects to the same partitions |
| `GptIdentity.CanonicalIsExact` | mkosi/private/partition_metadata.py:285-338 | accepted images of one size have one canonical form if and only if they agree on every byte outside disk GUID, unique GUIDs, header checksums and array checksums |
| `GptIdentity.HashBytes` | mkosi/private/partition_metadata.py:294-301 | feeds exactly the next bytes in bounded chunks, and fails exactly when the image ends early |
| `GptIdentity.HashWithPatches` | mkosi/private/partition_metadata.py:304-316 | streams the image with the sorted patches in place, at the image's length, and fails exactly when they overlap or leave the image |
| `GptIdentity.StreamIsCanonical` | mkosi/private/partition_metadata.py:304-338 | for the patches of an accepted image the stream is the canonical image |
| `GptIdentity.CanonicalStream` | mkosi/private/partition_metadata.py:319-338 | succeeds exactly on images that project; overlap and truncation never occur; what is hashed is the canonical image |
| `Fat.GeometryInside` | mkosi/private/esp_manifest/rules_mkosi_esp_manifest.py:164-203 | an accepted boot sector puts FATs, root directory and clusters in order, disjoint and inside the partition |
| `Fat.Open` | mkosi/private/esp_manifest/rules_mkosi_esp_manifest.py:270-281 | neither the boot sector nor the FAT read leaves the image, and the FAT holds an entry for every cluster |
| `Fat.EntryInsideFat` | mkosi/private/esp_manifest/rules_mkosi_esp_manifest.py:283-289 | every entry, the straddling 12-bit form included, lies inside the FAT |
| `Fat.PackedEntries` | mkosi/private/esp_manifest/rules_mkosi_esp_manifest.py:283-289 | two neighbouring 12-bit entries are exactly the three bytes that they share |
| `Fat.Chain` | mkosi/private/esp_manifest/rules_mkosi_esp_manifest.py:291-305 | ends and returns exactly the linked list of clusters from the first one, or fails because there is none |
| `Fat.ChainUnique` | mkosi/private/esp_manifest/rules_mkosi_esp_manifest.py:291-305 | a cluster starts at most one chain |
| `FatWalk.ReadChain` | mkosi/private/esp_manifest/rules_mkosi_esp_manifest.py:307-310 | returns the bytes of the clusters; no read leaves the image |
| `FatWalk.ReadFile` | mkosi/private/esp_manifest/rules_mkosi_esp_manifest.py:312-323 | succeeds exactly when the file is empty or its chain has the clusters that its size needs, and returns the first bytes of that chain |
| `FatWalk.WalkLimits.Claim` | mkosi/private/esp_manifest/rules_mkosi_esp_manifest.py:246-264 | refuses exactly a chain that shares a claimed cluster, and otherwise claims it and its bytes |
| `FatWalk.SpentFits` | mkosi/private/esp_manifest/rules_mkosi_esp_manifest.py:246-264 | claimed clusters and the fixed root together never exceed the partition |
| `FatWalk.Directory` | mkosi/private/esp_manifest/rules_mkosi_esp_manifest.py:325-340 | during a walk fails exactly when the directory cannot be read or shares a cluster; the byte budget and the image bound are never exceeded |
| `FatWalk.Walk` | mkosi/private/esp_manifest/rules_mkosi_esp_manifest.py:396-408 | ends; succeeds exactly when every reachable directory can be read and no two share a cluster; lists every reachable file exactly once, sorted; the budget error is unreachable; for every decoder of directory bytes |
| `FatEntries.LongNameIsLocal` | mkosi/private/esp_manifest/rules_mkosi_esp_manifest.py:224-239 | the name from the slots collected on the way is the name from the complete run directly before the entry |
| `FatEntries.ReadEntries` | mkosi/private/esp_manifest/rules_mkosi_esp_manifest.py:342-373 | the one-pass reader returns the entries of the listed slots before the end marker, each determined by its slot and its own run |
| `FatEntries.EntriesAreListed` | mkosi/private/esp_manifest/rules_mkosi_esp_manifest.py:352-373 | entries come exactly from short slots that are no label, "." or ".." |
| `FatEntries.ListFiles` | mkosi/private/esp_manifest/rules_mkosi_esp_manifest.py:396-408 | the walk with the reader's own entries lists exactly the reachable files |
| `Der.ReadEncoded` | mkosi/private/secure_boot_signer.py:140-145 | reading an encoded object, with anything before and after it, gives tag, value and length back |
| `Der.ReadIsCanonical` | mkosi/private/secure_boot.py:306-329 | every accepted object re-encodes to the very bytes that were read |
| `Der.RetagChangesOneByte` | mkosi/private/secure_boot_signer.py:140-172 | encodings of one value under two tags differ in the first byte only |
| `Der.TilingUnique` | mkosi/private/secure_boot.py:293-303 | a value has at most one tiling by DER objects |
| `Der.Children` | mkosi/private/secure_boot.py:293-303 | returns the tiling of the value and fails exactly when there is none within the limits; every turn consumes bytes |
| `DerOid.ScanEncoded` | mkosi/private/secure_boot.py:332-353 | every minimal base-128 encoding within the limits is read back |
| `DerOid.ScanIsMinimal` | mkosi/private/secure_boot.py:332-353 | whatever is read is the minimal encoding of the subidentifiers returned |
| `DerOid.OidIsInjective` | mkosi/private/secure_boot.py:332-361 | equal dotted texts mean equal bytes |
| `DerOid.TextUnique` | mkosi/private/secure_boot.py:332-361 | an identifier has one dotted text |
| `DerOid.Oid` | mkosi/private/secure_boot.py:332-361 | accepts exactly the identifiers of up to 256 bytes that are minimal encodings within the limits, and returns their dotted text |
| `SignedAttributes.SignedAttributesDigest` | mkosi/private/secure_boot_signer.py:160-172 | accepts exactly the lists with one message digest, the content's, and one content type, the right one; the result is the digest of the attributes' bytes with the SET tag |
| `SignedAttributes.DigestCoversBytesRead` | mkosi/private/secure_boot_signer.py:160-172 | the re-encoded attributes are the bytes read, up to the tag |
| `SignedData.ParseSignedData` | mkosi/private/secure_boot.py:371-388 | returns the SignedData fields of exactly the payloads that have them |
| `SignedData.ImageDigest` | mkosi/private/secure_boot.py:391-405 | returns the image digest of exactly the contents that hold one |
| `SignedData.CheckSignerInfo` | mkosi/private/secure_boot.py:408-421 | accepts exactly one signer with SHA-256 and an RSA signature |
| `SignedData.AuthenticodeFacts` | mkosi/private/secure_boot.py:424-428 | returns the image digest of exactly the payloads that carry one |
| `SignedData.CarriedUnique` | mkosi/private/secure_boot.py:424-428 | a payload carries at most one image digest |
| `Pe.SectionRanges` | mkosi/private/secure_boot.py:156-170 | the table loop and the pairwise scan return the sorted raw ranges, or the first error |
| `Pe.SectionsOrdered` | mkosi/private/secure_boot.py:156-170 | accepted sections are the non-empty raw ranges of the table, every two disjoint and in order, between the headers and the end |
| `Pe.ParsePlaces` | mkosi/private/secure_boot.py:109-198 | checksum, security directory, headers and sections come in this order without overlap, and the certificate table ends the image |
| `Pe.SameLayout` | mkosi/private/secure_boot.py:185-198 | an image that agrees outside checksum and security directory parses to the same layout |
| `Authenticode.DerObjectExact` | mkosi/private/secure_boot.py:238-244 | exactly the zero-padded DER sequences within the size limit are accepted |
| `Authenticode.AuthenticodePayload` | mkosi/private/secure_boot.py:216-235 | accepts exactly the tables that are one WIN_CERTIFICATE around a DER sequence with zero padding, and returns the sequence |
| `Authenticode.PayloadUnique` | mkosi/private/secure_boot.py:216-235 | a table wraps at most one payload |
| `Authenticode.ProveEquivalence` | mkosi/private/secure_boot.py:247-264 | accepts exactly the signed forms of the unsigned image: new checksum and directory, zero padding, one certificate, every other byte the same |
| `Authenticode.OneLayout` | mkosi/private/secure_boot.py:247-264 | both images of an accepted pair have one layout up to the certificate table |
| `Authenticode.AuthenticodeHash` | mkosi/private/secure_boot.py:267-284 | the guard in the loop is dead; the one after it fires exactly when content reaches into the table; the hash is that of the covered bytes |
| `AuthenticodeStream.UnsignedHashable` | mkosi/private/secure_boot.py:267-284 | hashing an unsigned image never fails |
| `AuthenticodeStream.SignedStream` | mkosi/private/secure_boot.py:247-284 | after acceptance both guards are dead and the hashed bytes are the unsigned ones followed by exactly the inserted zeros |
| `AuthenticodeStream.OverlapIsPossible` | mkosi/private/secure_boot.py:267-284 | an image whose section holds its certificate table parses and cannot be hashed |
| `AuthenticodeStream.StreamExact` | mkosi/private/secure_boot.py:267-284 | images of one layout have equal hashed bytes if and only if they agree on every covered position |
| `AuthenticodeStream.VerifyEmbedded` | mkosi/private/secure_boot.py:485-492 | accepts exactly a signed form whose PKCS#7 payload carries the hash of the unsigned content and the padding |
| `PathValues.WordsOfJoin` | mkosi/private/mkosi_runner/mkosi_options.py:36-43 | words joined with commas are split back into the words |
| `PathValues.ItemsOfMapped` | mkosi/private/mkosi_runner/mkosi_options.py:36-53 | where no mapped path holds a separator of the option, mapping a value maps its items one by one |
| `PathValues.DeclaredOfMapped` | mkosi/private/mkosi_runner/mkosi_options.py:32-53 | the paths that a mapped value declares are the mapped paths, if and only if none of these holds a separator of the option |
| `PathValues.MapPathsIdempotent` | mkosi/private/mkosi_runner/mkosi_options.py:36-53 | where no mapped path holds a separator of the option, mapping with an idempotent function is idempotent |
| `Options.ReadSplits` | mkosi/private/mkosi_runner/mkosi_options.py:169-210 | an argument is its prefix followed by its attached value, also after a cluster of flags |
| `Options.Scan` | mkosi/private/mkosi_runner/mkosi_options.py:169-196 | the cluster loop ends and finds the occurrence and next index that the specification gives |
| `Options.FindOccurrences` | mkosi/private/mkosi_runner/mkosi_options.py:155-166 | finds exactly the specified occurrences; every argument is its prefix and value, and the indexes rise strictly |
| `OptionReattach.ReadReattach` | mkosi/private/mkosi_runner/mkosi_options.py:169-219 | another attached value is read with the same spelling and prefix, and the argument stays an option |
| `OptionReattach.ReadDetach` | mkosi/private/mkosi_runner/mkosi_options.py:169-219 | a short option whose attached value became empty is the bare option |
| `CommandLine.RescanExact` | mkosi/private/mkosi_runner/command_line.py:165-178 | for every function with absolute results a second scan finds the same options, spellings, indexes and prefixes with the mapped values, if and only if no attached short list value names nothing |
| `CommandLine.CollapseChangesMeaning` | mkosi/private/mkosi_runner/mkosi_options.py:36-43 | the input on which it fails, with a well-formed table: `-I,` becomes `-I` and takes the verb |
| `CommandLine.PathOccurrences` | mkosi/private/mkosi_runner/command_line.py:165-170 | returns the path occurrences, and fails exactly when one has no value |
| `CommandLine.AbsolutePaths` | mkosi/private/mkosi_runner/command_line.py:173-178 | maps every path value in its place and changes no other argument |
| `CommandLine.Declared` | mkosi/private/mkosi_runner/command_line.py:181-187 | returns the paths of all path occurrences in order |
| `CommandLine.DeclaredCommutes` | mkosi/private/mkosi_runner/command_line.py:165-187 | `declared_paths` of the rewritten arguments is the mapped `declared_paths`, if and only if no mapped path holds a separator of its option |
| `CommandLine.RewritingIdempotent` | mkosi/private/mkosi_runner/command_line.py:173-178 | rewriting twice with an idempotent function changes nothing the second time, where no mapped path holds a separator of its option |
| `CommandLine.RewritingUnique` | mkosi/private/mkosi_runner/command_line.py:173-178 | the occurrences and the function determine the rewritten arguments |
| `WorkingDirectory.AbsPathIdempotent` | mkosi/private/mkosi_runner/command_line.py:173-178 | making a path absolute twice in one working directory is making it absolute once |
| `WorkingDirectory.DirectoryExact` | mkosi/private/mkosi_runner/command_line.py:173-187 | every value of an option declares the mapped paths after it was made absolute, if and only if the working directory holds nothing that the option separates at |
| `WorkingDirectory.FittingDirectory` | mkosi/private/mkosi_runner/command_line.py:165-187 | in a directory that fits the table, making paths absolute commutes with declaring them for all arguments that collapse nowhere, and is idempotent |
| `WorkingDirectory.DirectoryWithSpace` | mkosi/private/mkosi_runner/command_line.py:173-187 | the directory `/my dir` and the include `a`: one declared path becomes two |
| `Framing.ParseExact` | mkosi/private/openpgp.py:83-102 | for a reader that looks no further than its item, splitting succeeds exactly on tilings and gives their items |
| `OpenPgp.PacketFormat` | mkosi/private/openpgp.py:62-80 | what is read as a packet is exactly a body after one of the six definite header forms, whatever follows |
| `OpenPgp.Packets` | mkosi/private/openpgp.py:83-102 | accepts exactly the non-empty sequences of framed packets and returns them |
| `OpenPgp.PacketsRoundTrip` | mkosi/private/openpgp.py:105-113 | any concatenation of new packets parses back into exactly those packets |
| `OpenPgp.Certificate` | mkosi/private/openpgp.py:116-138 | accepts exactly a packet sequence led by its only public key, of version 4, with certificate packets only, whose key body fits a fingerprint; the oversized ones fail with an error of their own |
| `OpenPgp.OversizedKey` | mkosi/private/openpgp.py:116-120 | a well-formed certificate with a key body of 65536 bytes |
| `OpenPgp.DetachedSignature` | mkosi/private/openpgp.py:141-156 | accepts exactly one framed signature packet |
| `EfiAuth.ListFormat` | mkosi/private/efi_auth.py:86-103 | what is read as a signature list is exactly a well-made list, whatever follows |
| `EfiAuth.SignatureLists` | mkosi/private/efi_auth.py:86-103 | accepts exactly the sequences of well-made lists and returns their types and data |
| `EfiAuth.OneCertificateIsList` | mkosi/private/efi_auth.py:37-41 | the builder's list is read back exactly when the certificate is not empty |
| `EfiAuth.CertificatesRoundTrip` | mkosi/private/efi_auth.py:37-41 | any concatenation of built lists parses back into its certificates |
| `EfiAuth.AuthExact` | mkosi/private/efi_auth.py:49-117 | a file is accepted exactly when the builder makes it from a valid time, DER data and suitable lists |
| `EfiAuth.ParseAuth` | mkosi/private/efi_auth.py:106-117 | returns the PKCS#7 bytes and lists of exactly those files |
| `Processes.RunsAreFinite` | mkosi/debian/namespace_runner.c:165-270 | however the processes interleave and fail, a run has at most one step per instruction |
| `Processes.QuietMeansEnded` | mkosi/debian/namespace_runner.c:165-180 | where nobody waits for one who waits, every live process is blocked exactly when both have ended |
| `RunnerHandshake.RunnerHandshakeSafe` | mkosi/debian/namespace_runner.c:219-270 | in every state of every run the child is root only after both maps and setgroups=deny, the group map comes after the denial, and all live processes are blocked only when both have ended, so no read waits for ever; the run ends; an operation that reports failure may have had its effect |
| `RunnerHandshake.RootIsReached` | mkosi/debian/namespace_runner.c:219-270 | some run makes the child root |
| `PreflightHandshake.PreflightHandshakeSafe` | mkosi/private/kernel_preflight.c:682-924 | the same for the preflight's order, its failure byte and its third pipe |
| `PreflightHandshake.RootIsReached` | mkosi/private/kernel_preflight.c:682-924 | some run makes the child root |
| `Splice.CopyRange` | mkosi/private/esp_files.py:36-53 | for any short reads succeeds exactly when the source holds the range; the range is copied, except that a sparse copy may keep old bytes under zeros, and nothing else changes |
| `Splice.DenseCopy` | mkosi/private/esp_files.py:36-53 | a dense copy is a plain overwrite |
| `Splice.SparseCopy` | mkosi/private/esp_files.py:36-53 | a sparse copy is one too over a destination that reads as zero wherever the source does |
| `Splice.SignImage` | mkosi/private/secure_boot_image.py:339-357 | the output is the input with the rewritten partition written over it at the old offset, for any short reads and whatever its length |
| `Splice.SignedInPlace` | mkosi/private/secure_boot_image.py:339-357 | when the partition keeps its length, only its own bytes change and the image keeps its length |
| `Splice.CopyPayload` | mkosi/private/sysupdate.py:149-195 | the sparse payload file holds exactly the first bytes of the source, the digest is theirs, and it fails exactly when the source is shorter |

## Left out

- Hashes, checksums and signatures are parameters: SHA-256, the verity hash, CRC-32 and RSA are not computed. The
  verity hash has a fixed digest size of at least one byte.
- Versions are ASCII: outside ASCII distinct characters can get equal order values.
- `resolve` and `BuildUniverse` start from parsed packages; the text formats of package indexes, relations and
  releases, downloads and the rendering of the lock are not modelled.
- The archive is a map from normalised paths to members, and the tree that links are created in holds the regular
  members already; tar reading, file contents, modes, the CA bundle and placeholders for dangling runtime links are
  not modelled.
- The limits of the interpreter and of the operating system are not modelled: Python's recursion limit, which a chain
  of about a thousand links exceeds in `visit` and `depth`; its limit of 4300 digits on the conversion of an epoch; the
  length limits of paths and link texts, and the NUL character, which neither may hold. The number of links that one walk may cross is a parameter of the walk.
- GPT labels are decoded by a parameter, and the partition UUIDs of the report are not modelled.
- The character sets of FAT names are parameters: code page 437, its lower case and UTF-16 decoding. `lookup`,
  `_find_esp` and the manifest document are not modelled.
- The partition lookup of `project` in the metadata document is replaced by the two partition sizes; a hash algorithm
  name that is not ASCII is treated as an unsupported algorithm.
- The RSA verification of the signer and the comparison with the requested certificate are not modelled.
- SignedAttributesDigest: a content type attribute without any value raises an index error in the program; here it
  is one of the rejections.
- The option table is a parameter, not read from mkosi's argument parser. The results about rewriting hold for tables
  whose spellings are `-c` or `--name` without an equals sign and whose constants do not start with `-`, `=` or `/`.
  The rule for negative numbers is a parameter.
- RewritingIdempotent: one direction only; a mapped path with a separator can also come out the same the second time.
- DeclaredCommutes: for arguments that collapse nowhere; `RescanExact` says what happens to the others.
- ASCII armor, key and signature bodies of OpenPGP are not modelled, and the digest of a fingerprint is a parameter;
  `Certificate` and `DetachedSignature` start from binary data.
- The FAT tools that rewrite the extracted partition are a function of its bytes.
- CopyPayload: xz compression and file permissions are not modelled.
- The handshake models pipe ends, bytes and the identity of the child; an interrupted read that is retried is no step,
  closing a pipe end always succeeds, and the kernel's own checks on identity maps are not used. The preflight steps
  after the root transition are one step.
- Subprocesses, JSON documents, argument parsing of the programs, QEMU runs and the Bazel rules are not modelled.
