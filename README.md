# mini_git object model in Dafny

mini_git is a small content-addressed store. It has three kinds of object:

- a **blob** holds a file's bytes;
- a **tree** snapshots a directory;
- a **commit** is a `Key:Value` text record that names a tree and, optionally, a parent commit.

Every object is stored as a frame: a header `"<tag> <decimal length>\0"` followed by the body. The frame is named by the SHA-256 hexdigest of header‖body. It is written once into the object area, under a two-character fan-out folder and the rest of the id as the file name. A commit also moves the branch ref that HEAD points to onto the new commit id.

This project models those four source files and proves properties of the model:

| Dafny module | models | shape |
|---|---|---|
| `Utils` (utils.dfy) | utils.py | header, id and fan-out key as functions; the object area as the class `ObjectArea` with an idempotent `WriteToDisk` |
| `Blobs` (blob.dfy) | blob.py | class `Blob` with `Store` and `Load`, each proved equal to a pure specification (`StoreBlob`, `LoadBlob`) |
| `Trees` (tree.dfy) | tree.py | class `Tree`; `Store` resets `children`, loops over the sorted listing and recurses through `HandleTree`; proved equal to the recursive specification `StoreTree`/`StoreDir`/`StoreChildren` |
| `Commits` (commit.dfy) | commit.py | the record text and its parse; HEAD and refs as the class `RefArea`; class `Commit` with `Store` and `Load` |

Supporting modules:

- `Outcomes`: `Option`, `Result` and the error kinds, one per exception the code raises.
- `Text`: the Python `str` and `bytes` operations the code calls, namely `encode`/`decode("ascii")`, `strip`, `split()`, `split(None, 1)`, `splitlines`, `lower`, `str(n)` and `int(s)`.
- `FileSystem`: a directory tree as the datatype `File(bytes) | Dir(entries)`.
- `Sorting`: `sorted()` on names, ordered by code point.

The environment becomes explicit inputs:

- **SHA-256** is a parameter `hash: Digest`. Its only known property is that every output is 64 lower-case hex characters.
- **The working directory** is a `Node` value. A path argument is `NoPath` (None), `EmptyPath` ("") or `At(path)`.
- **The object area** is a map from fan-out path to bytes.
- **HEAD and the ref files** live in a `RefArea`: HEAD's text, and a map from ref location to ref content.

Each store also has a pure specification that returns an `Outcome`: the result together with every object write made, in order. Writes made before a failure are kept, just as files written before a Python exception stay on disk.

## Model

| member | source | states |
|---|---|---|
| Utils.MakeHeader | utils.py:12-23 | The header is `len(tag) + len(str(len(body))) + 2` bytes long and its last byte is NUL |
| Utils.FrameHeaderText | utils.py:23 | The bytes before the header's NUL are exactly the ASCII text `"<tag> <len(body)>"`, whatever follows the header |
| Utils.HeaderDependsOnLengthOnly | utils.py:12-23 | For one tag, two headers are equal if and only if the two bodies have the same length; the contents never matter |
| Utils.HeaderEndsAtFirstNul | utils.py:23 | For a tag with no whitespace or NUL (blob, tree, commit), the first NUL of header‖anything is the header's last byte |
| Utils.FindNul | blob.py:71 | `bytes.find(b'\0')`: the byte found is 0 and none before it is; None means there is no NUL at all |
| Utils.SplitHeader | blob.py:71-74 | Content with no NUL is a malformed header. The bytes before the first NUL must decode as ASCII, or the split fails with NotAscii. The split succeeds if and only if that text has exactly two whitespace-separated fields, and kind and length are those two fields; any other count is a malformed header |
| Utils.SplitHeaderOfFrame | blob.py:71-74 | A framed header splits back into its tag, its decimal length and the position of its NUL, whatever follows it |
| Utils.CreateObjId | utils.py:25-36 | The id is the digest of header‖body and is 64 hex characters |
| Utils.ObjIdOfBytes | utils.py:36 | The id depends only on the concatenation header‖body, not on where it is split |
| Utils.HexDigestIsAsciiWord | utils.py:36 | A hexdigest is ASCII and has no whitespace, no line break and no colon |
| Utils.SplitId | utils.py:47 | `folder + file_name == obj_id`, and the folder is 2 characters for any id of at least 2 |
| Utils.SplitIdInjective | utils.py:47 | Different ids never share a storage path |
| Utils.Insert | utils.py:51-56 | After a write the path is present; it keeps its old bytes if it was present, and holds the new bytes otherwise |
| Utils.InsertFrame | utils.py:51-56 | A write adds no other path and overwrites nothing already stored |
| Utils.InsertPresent | utils.py:52 | Writing an id that is already stored changes nothing, whatever the bytes |
| Utils.InsertAllKeeps | utils.py:51-56 | After a series of writes, nothing stored before has changed, every written id is present, and nothing else was added |
| Utils.InsertAllPresent | utils.py:52 | Replaying writes whose ids are all stored leaves the area unchanged |
| Utils.InsertAllIdempotent | utils.py:51-56 | Doing the same series of writes twice is the same as doing it once |
| Utils.ObjectArea.constructor | mini_git/repository.py:25-26 | A new object area is empty |
| Utils.ObjectArea.WriteToDisk | utils.py:38-56 | The new area is `Insert` of the old one with this id and these bytes (see Insert, InsertFrame, InsertPresent) |
| Utils.ReadObject | blob.py:61-68 | Reading succeeds if and only if a non-empty object is stored at the id's path, and gives those bytes; nothing stored gives FileNotFound |
| Utils.ValidateFile | utils.py:60-84 | Succeeds if and only if the path is a regular file with at least one byte; a missing path or a directory gives FileNotFound, an empty file EmptyFile |
| Utils.ValidateDirectory | utils.py:86-103 | Succeeds if and only if the path is a directory; a missing path gives FileNotFound, a file NotADirectory |
| Text.EncodeAscii | commit.py:65 | `encode("ascii")` succeeds if and only if every character is ASCII, and keeps the length |
| Text.DecodeAscii | commit.py:100 | `decode("ascii")` succeeds if and only if every byte is below 128, giving ASCII text of the same length |
| Text.DecodeEncodedAscii | commit.py:100 | Decoding the encoding of ASCII text gives the text back |
| Text.AsciiBytesAppend | tree.py:79 | Encoding a concatenation is the concatenation of the encodings |
| Text.TrimStartIsSuffix | commit.py:35 | `lstrip` removes only a prefix, and the prefix is all whitespace; what remains does not start with whitespace |
| Text.TrimEndIsPrefix | commit.py:35 | `rstrip` removes only a suffix, and the suffix is all whitespace; what remains does not end with whitespace |
| Text.StripNoSpace | commit.py:42 | `strip` leaves text with no whitespace unchanged |
| Text.FieldsOfTwoWords | blob.py:74 | `split()` of two words joined by one space gives exactly those two words |
| Text.SplitOnceOfWordAndRest | commit.py:37 | `split(None, 1)` of a word, a whitespace run and a rest that starts with a non-space gives the word and the whole rest, whitespace inside it included |
| Text.SplitOnceCount | commit.py:37 | `split(None, 1)` gives fewer than two parts if and only if `split()` gives fewer than two fields |
| Text.TrimStartBlank | commit.py:35 | `lstrip` of whitespace followed by text that starts with a non-space gives exactly that text |
| Text.TrimEndBlank | commit.py:35 | `rstrip` of text that ends with a non-space followed by whitespace gives exactly that text |
| Text.StripPadded | commit.py:35 | `strip` removes exactly the whitespace around text whose ends are not whitespace |
| Text.FieldsTrimStart | blob.py:74 | Leading whitespace does not change the fields `split()` returns |
| Text.FieldsBlank | blob.py:74 | Whitespace alone has no fields |
| Text.FieldsAppendBlank | blob.py:74 | Trailing whitespace does not change the fields `split()` returns |
| Text.FieldsStrip | commit.py:35-37 | `strip` does not change the fields `split()` returns |
| Text.SplitLinesCons | commit.py:100 | `splitlines` splits off a line that has no line break and is followed by `\n` |
| Text.SplitLinesSingle | commit.py:100 | `splitlines` of a non-empty line with no break is that one line |
| Text.ColonIndex | commit.py:104-105 | The index found is the first `:`, or the length when there is none |
| Text.Decimal | utils.py:23 | `str(n)` is a non-empty run of digits with no leading zero |
| Text.ParseDecimal | blob.py:80 | `int(str(n)) == n` |
| Text.DecimalIsAsciiWord | utils.py:23 | `str(n)` is ASCII and has no whitespace |
| FileSystem.Listing | tree.py:31 | `os.listdir` gives one name per entry, in entry order |
| FileSystem.LookupIndex | tree.py:35 | Finds the first entry with that name; None if and only if no entry has it |
| FileSystem.ResolveChild | tree.py:35 | `os.path.join(path, child)` resolves to that entry of the directory at path |
| FileSystem.LookupUnique | tree.py:35 | With unique names, looking up an entry's name finds that entry |
| Sorting.BelowTotal | tree.py:31 | Code-point order on names is total |
| Sorting.BelowAntisymmetric | tree.py:31 | Code-point order on names is antisymmetric |
| Sorting.BelowTransitive | tree.py:31 | Code-point order on names is transitive |
| Sorting.SortNamesCorrect | tree.py:31 | `sorted()` gives an ascending permutation of the names |
| Sorting.SortedUnique | tree.py:31 | Two ascending permutations of the same names are equal |
| Sorting.SortCanonical | tree.py:31 | Names that are permutations of each other sort to the same list |
| Blobs.BlobId | blob.py:36-38 | A blob's id is a hexdigest |
| Blobs.StoreBlob | blob.py:22-48 | Store succeeds if and only if the path is a non-empty regular file. It then returns the digest of `make_header("blob", data) + data` and writes exactly that frame under it. On failure nothing is written and the error is validate_file's |
| Blobs.DecodeBlob | blob.py:70-80 | Success means: the header splits at the first NUL, the tag is "blob", the declared length is the body's length, and the body is the bytes right after the NUL. With no NUL the header is malformed, and any failure of the header split is passed on unchanged |
| Blobs.LoadBlob | blob.py:58-89 | A missing object gives FileNotFound and an empty one EmptyFile; otherwise the result is the decode of the stored bytes |
| Blobs.DecodeBlobFrame | blob.py:70-80 | Decoding a blob frame gives the data back, even with bytes trailing the frame |
| Blobs.DecodeBlobTruncated | blob.py:78-80 | A frame whose body is shorter than declared is a length mismatch |
| Blobs.DecodeBlobWrongKind | blob.py:75 | A frame with any other tag is refused, naming that tag |
| Blobs.StoreThenLoadBlob | blob.py:58-89 | Loading the id returned by store gives back the original bytes, unless another frame already sat at that path |
| Blobs.Blob.constructor | blob.py:13-19 | A new blob has its path and no id or data |
| Blobs.Blob.New | blob.py:13-16 | Constructing a blob fails with MissingPath if and only if no path is given |
| Blobs.Blob.Store | blob.py:22-48 | Result and area writes equal StoreBlob for the node at the path. On success the fields hold the data, the header, the id and its folder/file name split; on failure the object is unchanged |
| Blobs.Blob.StoreResolved | blob.py:30-48 | The same as Store, given the node the path resolves to |
| Blobs.Blob.Loaded | blob.py:82-87 | A loaded blob holds the id, the data, the tag as its header, the object path and the id's fan-out split |
| Blobs.Blob.Load | blob.py:58-89 | Load succeeds if and only if LoadBlob does, with the same error. A loaded blob has the decoded data, the id, header "blob", folder `id[:2]` and file name `id[2:]` |
| Trees.JoinIds | tree.py:79 | The joined body is ASCII bytes, 64 bytes per child when every child id is a hexdigest |
| Trees.JoinIdsLayout | tree.py:69-79 | The tree body is 64 bytes per child, and the k-th 64 bytes are the k-th child id |
| Trees.JoinIdsInjective | tree.py:79 | The body determines the list of child ids |
| Trees.CheckPathType | tree.py:55-65 | "blob" exactly when validate_file passes, "tree" exactly when validate_directory passes; otherwise it fails with validate_file's error |
| Trees.TreeId | tree.py:44-45 | A tree's id is a hexdigest |
| Trees.SortedListing | tree.py:31 | The sorted listing has one name per entry, and every name in it names an entry |
| Trees.SortedListingCovers | tree.py:31 | With unique names, every entry of the directory is named in the sorted listing |
| Trees.StoreDir | tree.py:27-53 | A successful directory store returns a hexdigest, and the last write is made under that id (StoreDirShape gives its bytes) |
| Trees.StoreChildren | tree.py:33-39 | Every collected id is a hexdigest, there is at most one id per name, and exactly one per name when nothing failed |
| Trees.StoreEntry | tree.py:83-94 | Storing a child returns a hexdigest whose object is its last write |
| Trees.StoreChildrenStuck | tree.py:33-39 | After the first failure the remaining names change nothing, because the exception ends the loop |
| Trees.StoreChildrenSucceeds | tree.py:33-39 | The loop over some names succeeds if and only if none of the children it visits holds an empty file |
| Trees.StoreEntrySucceeds | tree.py:34-39 | Storing one child succeeds if and only if it holds no empty file |
| Trees.StoreDirSucceeds | tree.py:23-53 | A directory's store succeeds if and only if no file anywhere below it is empty |
| Trees.StoreTree | tree.py:23-65 | A missing path gives FileNotFound with no writes. A file gives EmptyFile when empty and NotADirectory otherwise, with no writes. On success the path is a directory, the id is a hexdigest, and the last write is made under that id |
| Trees.StoreTreeSucceeds | tree.py:23-65 | `Tree(path).store()` succeeds if and only if the path is an existing directory with no empty file below it |
| Trees.StoreDirListingOrder | tree.py:31 | Two listings of the same entries, in any order, give the same tree id and the same writes |
| Trees.StoreChildrenCollects | tree.py:33-39 | A loop that succeeded took each visited child's id in order and kept every write each child made |
| Trees.StoreDirShape | tree.py:33-49 | On success: one id per entry; each id is what storing that child returns; every child's writes are kept; the last write is the tree's own frame, whose digest is the returned id |
| Trees.StoreTreePresent | tree.py:37-49 | After a successful store, the tree's object and every object written on the way are in the area |
| Trees.StoreTreeTwice | tree.py:27-49 | Storing the same tree again leaves the area as the first store left it |
| Trees.WalkFails | tree.py:33-39 | A failure at some child is the failure of the whole directory, keeping the writes made until then |
| Trees.GatheredIds | tree.py:27-39 | What `children` holds after store: hexdigests, one per entry when store succeeded |
| Trees.Tree.constructor | tree.py:18-21 | A new tree has its path, no children and no id |
| Trees.Tree.New | tree.py:18-21 | Constructing a tree fails with MissingPath if and only if no path is given |
| Trees.Tree.ReadChildData | tree.py:69-79 | The body is 64 bytes per child, and the k-th 64 bytes are the k-th child id |
| Trees.Tree.Store | tree.py:23-53 | Result and area writes equal StoreTree for the node at the path. `children` is what the loop gathered, and `path_type` is set when the check passed. On success data, header and id describe the tree's frame; on failure they are unchanged |
| Trees.Tree.StoreListing | tree.py:30-53 | The same as Store once the path is known to be a directory, with the result equal to StoreDir |
| Trees.Tree.VisitChildren | tree.py:33-39 | The loop's failure, `children` and area writes equal StoreChildren over the sorted listing |
| Trees.Tree.HandleChild | tree.py:34-39 | One pass of the loop: result and writes equal StoreEntry of the child |
| Trees.Tree.HandleTree | tree.py:89-94 | Result and writes equal StoreTree of the child directory |
| Trees.Tree.HandleFile | tree.py:83-87 | Result and writes equal StoreBlob of the child file |
| Commits.RecordLines | commit.py:23-28 | The record has 5 lines with a non-empty parent, otherwise 4 |
| Commits.SplitJoinedLines | commit.py:100 | `splitlines` of lines joined by `\n` gives the lines back, when each line is non-empty and has no break |
| Commits.CreateData | commit.py:23-28 | With a non-empty parent the text is the Tree, Parent, Date, Author and Message lines joined by newlines; without one it is the same minus the Parent line, with no trailing newline |
| Commits.JoinFourLines | commit.py:27 | Joining four lines puts one newline between each pair |
| Commits.JoinFiveLines | commit.py:25 | Joining five lines puts one newline between each pair |
| Commits.JoinLinesCons | commit.py:25-27 | Joining a line before others puts one newline between it and the rest |
| Commits.CreateDataLines | commit.py:23-28 | create_data emits Tree, Parent (only when present and non-empty), Date, Author and Message lines in that order, and splitlines recovers them |
| Commits.AsciiJoinedLines | commit.py:65 | Joined lines are ASCII if and only if every line is |
| Commits.CreateDataAscii | commit.py:62-65 | The record encodes as ASCII if and only if every value written into it is ASCII |
| Commits.SplitEntry | commit.py:104-105 | No split if and only if the line has no `:`; otherwise the line is key + ":" + value, and the key has no `:` |
| Commits.EntriesValues | commit.py:102-106 | Every value in the dict was set for its key by one of the lines |
| Commits.EntriesKeys | commit.py:102-106 | A key is in the dict if and only if some line sets it |
| Commits.EntriesLastWins | commit.py:102-106 | A key's value comes from the last line that sets it |
| Commits.EntryOfLine | commit.py:105 | Only the first colon splits, so a value that contains colons survives |
| Commits.EntriesSnoc | commit.py:103-106 | A further "Key:value" line sets `key.lower()` to value |
| Commits.CollectEntries | commit.py:102-106 | The loop builds exactly the dict Entries describes |
| Commits.RecordOf | commit.py:110-116 | Building the record succeeds if and only if tree, date, author and message are all present. Tree, date, author and message are those entries, and parent is the "parent" entry if there is one, else None. Otherwise the failure names the first missing key in the order tree, date, author, message, as the lookups run |
| Commits.RecordOfLines | commit.py:102-116 | The record's own lines parse back into the record, with an empty parent read as none |
| Commits.CommitText | commit.py:87-100 | Success means the tag is "commit", the declared length equals everything after the NUL, and those bytes decode as ASCII to the text; with no NUL the header is malformed |
| Commits.CommitTextOfFrame | commit.py:87-100 | The body of a commit frame decodes back to the text it came from |
| Commits.DecodeCommit | commit.py:78-116 | A header, length or ASCII failure is passed on unchanged. Otherwise decoding succeeds if and only if the entries of the text's lines include tree, date, author and message, and the record is built from those entries, with parent taken when present |
| Commits.LoadCommit | commit.py:78-116 | A missing object gives FileNotFound and an empty one EmptyFile; otherwise the result is the decode of the stored bytes |
| Commits.DecodeCommitFrame | commit.py:78-116 | Round trip: decoding a stored record of one-line ASCII values gives the record back, with an empty parent as none |
| Commits.DecodeCommitTrailing | commit.py:96-98 | Any bytes after the declared body make load fail with a length mismatch |
| Commits.DecodeCommitWrongKind | commit.py:93 | A frame with another tag is refused, naming that tag |
| Commits.HeadLocation | commit.py:32-37 | A missing HEAD gives FileNotFound. An existing HEAD fails, with MalformedHead, if and only if it has fewer than two fields. A location found is non-empty and does not start with whitespace |
| Commits.HeadNamesLocation | commit.py:35-37 | HEAD made of a word, a whitespace run and a location, with any whitespace around the whole, names exactly that location, including any whitespace inside it |
| Commits.HeadOfTwoWords | commit.py:35-37 | HEAD of the form "<word> <location>" names that location |
| Commits.InitialHeadLocation | mini_git/repository.py:38-39 | A fresh repository's HEAD names `refs/heads/master` |
| Commits.ParentOf | commit.py:30-46 | Succeeds if and only if HEAD names a location. The parent is absent if and only if no ref exists there; otherwise it is the ref's stripped content |
| Commits.ParentOfPaddedRef | commit.py:40-42 | A ref holding a hexdigest with whitespace around it, such as a trailing newline, gives that hexdigest as the parent |
| Commits.ParentAfterAdvance | commit.py:72-73 | Once the ref holds a new commit id, the next lookup gives that id as the parent, so successive stores form a chain |
| Commits.RefArea.constructor | commit.py:32-42 | The HEAD text and the ref contents are as given |
| Commits.RefArea.Init | mini_git/repository.py:35-39 | A fresh repository: HEAD is "ref: refs/heads/master" and there are no refs |
| Commits.CommitOnTree | commit.py:59-73 | Succeeds if and only if HEAD names a location and the record is ASCII. On success the one write is the commit frame of the record's ASCII encoding, and the returned id is the digest of that frame's header and body; on failure nothing is written |
| Commits.StoreCommit | commit.py:48-76 | A directory that fails validation fails with that error and writes nothing. A failed tree store passes on its error and keeps the tree's writes. Once the tree is stored, the result is CommitOnTree's and the writes are the tree's followed by the commit frame. A successful store returns a hexdigest |
| Commits.StoreCommitAscii | commit.py:65 | Once tree and HEAD succeed, store succeeds if and only if the parent, date, author and message are ASCII |
| Commits.StoreThenLoadCommit | commit.py:78-116 | Once a record's commit frame is written, loading its id gives the record back (an empty parent as none), unless another frame already sat at that path |
| Commits.StoreCommitThenLoad | commit.py:48-116 | After a successful store, loading the returned id from the area store wrote gives back the record store built, with the tree id, the old ref tip as parent, date, author and message. This holds when those values are one-line ASCII and the commit's path was free or held the same frame |
| Commits.Commit.constructor | commit.py:10-18 | A new commit holds its path, author, time and message, and nothing else |
| Commits.Commit.New | commit.py:10-21 | Fails with MissingPath if and only if the path is missing or empty. A missing or empty message is replaced by the typed one, and the date is the clock reading |
| Commits.Commit.GetParentSha | commit.py:30-46 | Result equals ParentOf. On success `parent_location` is the named location |
| Commits.Commit.Store | commit.py:48-76 | Result and writes equal StoreCommit. On success the ref HEAD names holds the new id and no other ref changes, and body, header and id describe the frame; `parent_sha` is reset. On failure no ref changes and body, header and id keep their old values. The fields follow the steps: if validation or the tree store fails, `tree_sha`, `parent_location`, `parent_sha` and `data` keep their old values; once the tree is stored `tree_sha` is its id; if HEAD cannot be parsed the rest keep their old values; once it is parsed `parent_location` is the named location and `data` is the record with the old ref tip as parent; if the ASCII encode then fails, the error is NotAscii and `parent_sha` is the tip found |
| Commits.Commit.Advance | commit.py:59-76 | After the tree, result and write equal CommitOnTree. A failed HEAD parse leaves `parent_location`, `parent_sha` and `data` unchanged. After a parse, `parent_location` and `data` are set; an encode failure leaves `parent_sha` as the tip found; success stores and points the ref as in Store |
| Commits.Commit.SnapshotTree | commit.py:56 | Result and writes equal StoreTree of the commit's directory |
| Commits.Commit.Record | commit.py:62-75 | `data` is the record text. Success if and only if it is ASCII; otherwise NotAscii and nothing is written. On success one frame is written and the ref advanced |
| Commits.Commit.Publish | commit.py:66-75 | Sets body, header and id, writes the frame, points the ref at the id and resets `parent_sha` |
| Commits.Commit.Loaded | commit.py:110-116 | A loaded commit holds the id and the record's fields |
| Commits.Commit.Load | commit.py:78-119 | Load succeeds if and only if LoadCommit does, with the same error; the new commit carries the id and the decoded fields |

## Left out

- The SHA-256 algorithm itself. It is the parameter `hash`; only its output format is assumed, and no collision resistance.
- Real filesystem calls and the `BASE_DIR` environment lookups (blob.py:43, tree.py:47, commit.py:53). The working directory, the object area, HEAD and the refs are values and fields. `os.makedirs` is implicit in the map insert.
- IOError from a file that exists but cannot be read (utils.py:83-84). Reading always succeeds in the model.
- Special files, symbolic links and sockets. A node is a regular file or a directory.
- `datetime.now()` and `input()` (commit.py:13, 16) become the parameters `now` and `typed` of `Commit.New`.
- UTF-8 decoding. The headers are decoded as ASCII, so a header with non-ASCII bytes fails as NotAscii. HEAD and the ref files are held as text, not bytes.
- `decode_sha_to_path` (blob.py:61, commit.py:80) is not defined in utils.py and is not part of this model. An object is read back from the same fan-out path that write_to_disk uses.
- `Tree.load` (tree.py:97-99) only prints, and `__str__`/`__repr__` format text; neither is modelled.
- The repository stubs `add`, `commit`, `log` and `read_commit` are empty in the code. No staging index and no log walk are modelled.
- The `.minigit` directory is not excluded from a snapshot, because tree.py does not exclude it. Snapshotting the repository root would include it.
- Commits.Commit.Store: the ref location is used as written in HEAD. The `os.path.join` rule that an absolute location replaces the prefix is not modelled.
- Commits.Commit.Store: writing the ref file is assumed to succeed. Python's `open(..., "w")` fails when `refs/heads` is missing, but repository initialisation creates it.
- Commits.RefArea.constructor: HEAD is a constant, because no core code writes it.
- Blobs.Blob.Store on a loaded blob fails with FileNotFound. In Python it raises AttributeError, because `load` never sets `file_path`.
- Text.TrimStart, Text.TrimEnd: their own contracts state only the length bound and the edge character. The full relation to the input is in TrimStartIsSuffix and TrimEndIsPrefix.
- Utils.Insert: an id shorter than two characters is stored under its whole self as folder with an empty file name. For such an id utils.py:47-52 finds the folder it just created present and writes nothing. Every id written is a 64-character hexdigest, so the case never arises.
- Commits.Entries has no contract of its own. What the dict holds is stated by EntriesKeys, EntriesValues and EntriesLastWins.
- Trees.JoinIds requires ASCII ids, as `encode("ascii")` does at tree.py:79. Every id it receives is a hexdigest.

Three behaviours of the code that the model keeps as written:

- A tree's body is the bare concatenation of its child ids (tree.py:79), so names and kinds do not enter a tree's id.
- tree.py has no guard against symbolic-link cycles. The model's filesystem is a finite tree, so the walk always ends.
- Blob.load ignores bytes after the declared body (blob.py:78), while Commit.load rejects them (commit.py:96-98).
