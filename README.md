# jkdsUtility in Dafny

A model of the two computational parts of the `jkdsUtility` Swift package,
with proofs about them.

- **The App Store version comparator** (`StoreVersion.dfy`, module
  `StoreVersion`). A version string is split on `.`, and empty pieces are
  dropped. Each remaining piece goes through Swift's `Int(_:)`: an optional
  sign, at least one ASCII digit, and a value within the 64-bit `Int` range.
  Pieces that `Int(_:)` rejects are dropped. The comparison loop pads the
  shorter component list with zeros and returns at the first index where the
  lists differ. Index 0 is major, 1 is minor, and anything later is patch.
  `compareAppVersion` gives no result when the store lookup gave none.
  Otherwise it gives the comparison of the store version with the bundle
  version.
- **The file helpers** (`FileUtils.dfy`, module `FileUtils`). The platform
  file system is replaced by a class `FileSystem`. It holds a map from
  absolute path (a sequence of names) to a directory or a regular file with
  its bytes, plus the set of entries whose attributes cannot be read. URLs
  are built under a fixed documents directory by appending names verbatim.
  `createFolder` and `createFile` refuse an existing path with `isExist`.
  `createFile` reports `failedToSave` when the write is refused. The three
  removal calls fail on a missing path and otherwise remove the whole
  subtree. `fileSize` and `directorySize` fall back to 0 whenever something
  cannot be read. `directorySize` adds up the readable regular files that the
  enumerator reaches. It skips hidden names and does not descend into them.

`Wrappers.dfy` holds the `Option` type that stands for Swift's optionals.

Two behaviours of the code worth noting:
- A version component may carry a sign (`"-1"`, `"+2"`), because
  `Int(_:)` accepts one. It is not limited to non-negative numbers.
- `compareAppVersion` returns only the optional `VersionDifference`, not a
  record holding both versions.

## Model

| member | source | states |
|---|---|---|
| `StoreVersion.PiecesJoin` | Sources/jkdsUtility/StoreVersion.swift:62-63 | the pieces of a version string between `.` separators, empty ones included, contain no `.` and join back to the string |
| `StoreVersion.PiecesOfDotFree` | Sources/jkdsUtility/StoreVersion.swift:62-63 | a string without `.` is a single piece |
| `StoreVersion.PiecesAppend` | Sources/jkdsUtility/StoreVersion.swift:62-63 | splitting `s + "." + t` gives the pieces of `s` followed by those of `t` |
| `StoreVersion.NonEmpty` | Sources/jkdsUtility/StoreVersion.swift:62 | `split` keeps no empty piece and never returns more pieces than there were |
| `StoreVersion.NonEmptyAppend` | Sources/jkdsUtility/StoreVersion.swift:62 | dropping empty pieces distributes over concatenation |
| `StoreVersion.ParseIntSpelling` | Sources/jkdsUtility/StoreVersion.swift:62-63 | a piece that `Int(_:)` accepts is the canonical decimal spelling of the value it yields, preceded only by zeros and by a sign that agrees with the value; with `ParseShow` this is the round trip in both directions |
| `StoreVersion.DecimalValueOfDecimal` | Sources/jkdsUtility/StoreVersion.swift:62-63 | reading the decimal spelling of a natural number gives the number back |
| `StoreVersion.ParseShow` | Sources/jkdsUtility/StoreVersion.swift:62-63 | `Int(_:)` inverts decimal printing for every 64-bit integer, negatives included |
| `StoreVersion.CompactMapAppend` | Sources/jkdsUtility/StoreVersion.swift:62-63 | `compactMap` distributes over concatenation |
| `StoreVersion.ComponentsAppend` | Sources/jkdsUtility/StoreVersion.swift:62-63 | the components of `s + "." + t` are those of `s` followed by those of `t` |
| `StoreVersion.ComponentsAppendZero` | Sources/jkdsUtility/StoreVersion.swift:62-63 | appending `".0"` to a version string appends exactly one zero component |
| `StoreVersion.ComponentsOfPiece` | Sources/jkdsUtility/StoreVersion.swift:62-63 | a non-empty piece without `.` yields one component if `Int(_:)` accepts it and none otherwise |
| `StoreVersion.ComponentsRejectedFirst` | Sources/jkdsUtility/StoreVersion.swift:62-63 | a leading piece that `Int(_:)` rejects leaves no component: `"x.3"` has components `[3]` |
| `StoreVersion.ComponentsDropRejected` | Sources/jkdsUtility/StoreVersion.swift:62-63 | a rejected piece is dropped and later components shift left: `"1.x.3"` has components `[1, 3]` |
| `StoreVersion.FirstDifferenceFrom` | Sources/jkdsUtility/StoreVersion.swift:65-86 | the index found is the first one, at or after the start, where the zero-padded lists differ, and it is below the longer length; none is found exactly when the padded lists agree from the start onwards |
| `StoreVersion.CompareVersions` | Sources/jkdsUtility/StoreVersion.swift:61-89 | the comparison loop returns the tag decided by the first difference of the zero-padded components, or `equal` |
| `StoreVersion.CompareAppVersion` | Sources/jkdsUtility/StoreVersion.swift:108-117 | no result exactly when no store version was fetched; otherwise the comparison of the store version with the bundle version, which is `equal` when the two strings coincide |
| `StoreVersion.FirstDifferenceDecides` | Sources/jkdsUtility/StoreVersion.swift:67-85 | the first differing index decides the result: index 0 gives a major tag, 1 a minor tag, 2 or more a patch tag, and the side with the larger component is the newer one |
| `StoreVersion.EqualIffPaddedAgree` | Sources/jkdsUtility/StoreVersion.swift:67-88 | the result is `equal` exactly when the zero-padded component lists agree at every index |
| `StoreVersion.DifferenceReflexive` | Sources/jkdsUtility/StoreVersion.swift:67-88 | every component list compares `equal` with itself |
| `StoreVersion.CompareSelf` | Sources/jkdsUtility/StoreVersion.swift:61-88 | every version string compares `equal` with itself |
| `StoreVersion.DifferenceSwap` | Sources/jkdsUtility/StoreVersion.swift:71-85 | swapping the arguments swaps "higher in store" and "higher in current" for the same field, and keeps `equal` |
| `StoreVersion.TrailingZeroIgnored` | Sources/jkdsUtility/StoreVersion.swift:65-69 | a trailing zero component on either side never changes the result |
| `StoreVersion.AppendDotZeroIgnored` | Sources/jkdsUtility/StoreVersion.swift:62-69 | appending `".0"` to either version string never changes the result |
| `StoreVersion.MissingComponentIsZero` | Sources/jkdsUtility/StoreVersion.swift:65-69 | `"1.2"` compared with `"1.2.0"` is `equal` |
| `StoreVersion.MajorDecidesFirst` | Sources/jkdsUtility/StoreVersion.swift:67-77 | `"2.0"` against `"1.9.9"` is `majorHigherInStore` |
| `StoreVersion.FieldsCompareNumerically` | Sources/jkdsUtility/StoreVersion.swift:71-84 | fields compare as numbers: `"1.20"` against `"1.3"` is `minorHigherInStore`, and the reverse is `minorHigherInCurrent` |
| `FileUtils.MakeURL` | Sources/jkdsUtility/FileUtils.swift:43-50 | a URL lies under the documents directory and holds the given path verbatim, followed by the file name when there is one |
| `FileUtils.FileURLInFolderURL` | Sources/jkdsUtility/FileUtils.swift:43-50 | the file URL's parent is the folder URL, the same path that `createFolder` and `removeFolder` resolve |
| `FileUtils.WithDirsCreatesPath` | Sources/jkdsUtility/FileUtils.swift:121-125 | creating a directory with its intermediates makes the path and every ancestor a directory, adds nothing else, changes no existing entry and keeps the tree well formed |
| `FileUtils.WithoutSubtreeRemovesExactly` | Sources/jkdsUtility/FileUtils.swift:102-104 | removal takes out exactly the target and its subtree, leaves every other entry as it was and keeps the tree well formed |
| `FileUtils.SumOfSizesRemove` | Sources/jkdsUtility/FileUtils.swift:79-89 | the total does not depend on the order in which the enumerator yields entries |
| `FileUtils.DirectorySizeNotEnumerable` | Sources/jkdsUtility/FileUtils.swift:68-75 | a directory that is missing, is a regular file, or cannot be read has size 0 |
| `FileUtils.DirectorySizeAddEntry` | Sources/jkdsUtility/FileUtils.swift:77-89 | a new entry raises a directory's size by its byte count exactly when the enumerator reaches it and it is a regular file |
| `FileUtils.HiddenOrDirectoryAddsNothing` | Sources/jkdsUtility/FileUtils.swift:69-86 | a new directory, or a new entry with a hidden name, leaves every directory size unchanged |
| `FileUtils.NewFolderIsEmpty` | Sources/jkdsUtility/FileUtils.swift:68-92 | a folder just created where nothing existed has size 0 |
| `FileUtils.FileSystem.FileSize` | Sources/jkdsUtility/FileUtils.swift:53-62 | a readable regular file's size is its byte count; a missing, unreadable or directory entry gives 0 |
| `FileUtils.FileSystem.FileSizeInKB` | Sources/jkdsUtility/FileUtils.swift:197-199 | returns exactly `fileSize`, in bytes |
| `FileUtils.FileSystem.IsExistFile` | Sources/jkdsUtility/FileUtils.swift:168-176 | true exactly when `documents/directory/fileName` exists; reading only, it changes nothing |
| `FileUtils.FileSystem.DirectorySize` | Sources/jkdsUtility/FileUtils.swift:68-92 | the loop's total is the sum of the byte counts of every entry the enumerator reaches; directories and unreadable entries add 0; it is 0 when the directory cannot be enumerated |
| `FileUtils.FileSystem.Delete` | Sources/jkdsUtility/FileUtils.swift:102-104 | fails when nothing is at the path; otherwise removes it with its whole subtree and changes nothing else |
| `FileUtils.FileSystem.CreateFolder` | Sources/jkdsUtility/FileUtils.swift:116-126 | an existing path throws `isExist` and changes nothing; otherwise the folder and its missing ancestors are created as directories |
| `FileUtils.FileSystem.RemoveFolder` | Sources/jkdsUtility/FileUtils.swift:134-141 | removes the same path `createFolder` creates, with its subtree, from both the entries and the unreadable set; fails with `NoSuchFile` exactly when it is absent, and then changes nothing |
| `FileUtils.FileSystem.DeleteFile` | Sources/jkdsUtility/FileUtils.swift:193-195 | fails with `NoSuchFile` when nothing is at the path, and refuses the root; otherwise removes its subtree from both the entries and the unreadable set; on failure nothing changes |
| `FileUtils.FileSystem.CreateFile` | Sources/jkdsUtility/FileUtils.swift:180-191 | an existing path throws `isExist` without overwriting; a refused write throws `failedToSave`; on success the entry is a file holding exactly the data |
| `FileUtils.FolderLifecycle` | Tests/jkdsUtilityTests/FileUtilsTests.swift:15-34 | removing a missing folder fails; creating it succeeds; creating it again throws `isExist`; removing it then succeeds and it is gone |
| `FileUtils.FileSizeOfNewFile` | Tests/jkdsUtilityTests/FileUtilsTests.swift:40-49 | a new file holding 2048 bytes reports a size of 2048 |
| `FileUtils.DirectorySizeOfNewFolder` | Tests/jkdsUtilityTests/FileUtilsTests.swift:52-63 | a new folder holding one 2048-byte file reports a directory size of 2048 |

`URL.isExist` (Sources/jkdsUtility/FileUtils.swift:98-100) is the predicate
`FileUtils.FileSystem.IsExist`, membership of the path in the entry map. Its
meaning is stated by the contracts of `IsExistFile`, `CreateFolder` and
`CreateFile`, which say `url in entries` where the source calls `isExist`.

## Left out

- The App Store lookup (`fetchAppVersion`, StoreVersion.swift:20-49) is network I/O and JSON parsing. Its outcome enters `CompareAppVersion` as an `Option<string>`.
- The `Task` and `MainActor.run` dispatch of the callback variants is concurrency and UI-context hand-off. Both `compareAppVersion` overloads run the same case split on the fetched version (lines 95-100 and 110-115). It is modelled once, as `CompareAppVersion`.
- `Int(_:)` is modelled on a 64-bit platform; 32-bit platforms are not modelled.
- StoreVersion.NonEmpty: its contract says only that no kept piece is empty and that none are added. Which pieces are kept, and in what order, is pinned down by `NonEmptyAppend` and the worked comparisons instead.
- The byte-count formatting (`fileSizeString`, `directorySizeString`) uses the platform's `ByteCountFormatter`, whose units and rounding are not modelled. The scenarios stop at byte counts rather than at the string "2KB".
- Sizes are unbounded naturals: the `Double` results and the `UInt64` overflow trap in `directorySize` are not modelled.
- `excludeBackup` and `NSURL.excludeFromBackup` only set a platform backup attribute, which has no effect in this model.
- The documents directory is a fixed path (`DocumentsPath`) instead of a platform lookup.
- Directory names are given as sequences of names. The model does not turn a string containing `/` into path components, and it resolves no `..` segments: names are appended verbatim.
- Strings are sequences of Unicode scalars, not Swift's grapheme clusters. `split(separator: ".")` compares `Character`s, so a `.` followed by a combining mark (`"1.\u{301}2"`) is not a separator in Swift, while the model splits on every `.` scalar.
- Hidden entries are those whose name starts with `.`. Platform hidden flags are not modelled.
- FileUtils.FileSystem.FileSize: a directory's own size attribute is not modelled; the model reports 0 for a directory.
- Symbolic links and file-system errors other than those named in `FileError` are not modelled. The system's refusal of a write is an input of `CreateFile` (`writeAccepted`). The model treats removing the file-system root as refused.
- `Log.swift` (debug console output), the SwiftUI previews and `Package.swift` are not part of this model.
