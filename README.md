# hollow, modelled in Dafny

hollow is a static-site and blog builder. It has a Go server and a web
editor. The server renders markdown and JSX content through a JavaScript
theme. It serves a file-editing API over key/value-backed FUSE file systems,
and it streams the logs of background jobs (publish, pull, push) to the
browser over websockets. This project models the server's core logic and the
editor's small front-end rules, and proves what each promises.

The model follows the program's structure, one module per source unit.

**Task log streaming**
- `WsHub`: the per-key connection table with its replay backlog.
- `AsyncTask`: the keyed task registry with its append-only logs and single listener.
- `EditorJobs`: the key-then-stream-close protocol of the editors' job handlers.
- `ProcessModal` and `WsClient`: the browser side, which is the dialog gated on the socket's close and the frame fan-out to callbacks.

**File systems**
- `KvStore`: the flat key/value store shared by the file systems.
- `FuseFs` and `FuseFile`: the FUSE path file system and its open files.
- `KvFs` and `KvFile`: the older file system, whose files carry a 17-byte attribute header.
- `StdFs`: the io/fs adapter.
- `EasyFs` and `FsApi`: the two file APIs with their depth-bounded file trees.

**Content pipeline**
- `Hollow`, `BblogHollow` and `Bblog`: page paths, theme URLs, output names, layered file systems and markdown unwrapping.
- `Loaders` and `ContentLoader`: front matter, asset URL rewriting and deferred content.
- `ContentTrees`: flattening, filtering and the directory walk.
- `ContentSort`: the recursive sort of a content forest by the theme's comparison.
- `MdRender`: YAML metadata normalisation.
- `Jsx`: the JSX block scanner of the markdown extension.

**Small rules**
- `Domain`: preview-host matching.
- `HollowEditor` and `BblogEditor`: the editors' HTTP rules.
- `EditorTools`, `FileEditor` and `Toast`: the editor's toolbar, file pane and toasts.
- `GoStrings`, `GoPath` and `Sorting`: the parts of Go's `strings`, `path` and `sort` packages that the code relies on.

Objects whose fields the source updates in place are classes:
- the hub, the task manager, the file systems and their open files;
- the readers, the editor pane, the dialog and the websocket client.

Each method's postcondition ties the new state to a step function of the old state. Lemmas then prove the promised properties about those functions.

Calls outside the model become parameters of the operations that make them:
- the store's Put/Delete/List outcomes, websocket writes and the clock;
- random keys, the YAML parser, the markdown renderer and the HTML lexer's output.

Where the code and its documentation differ, the model follows the code. The cases where the code is evidently wrong are listed under Findings. Each is modelled twice: once as written, and once corrected. The as-written half is a function or lemma whose name starts with AsWritten, or FuseFile.WriteStepAsWritten and KvFs.ChildEntryAsWritten. The class methods follow the corrected half: the FuseFS constructor, FuseFile.File.Write, and KvFS.OpenDir, KvFS.GetAttr and KvFS.Truncate, and the Rmdir of FuseFS, KvFS and EasyFs.Fs. The rest of the model builds on the corrected half.

## Model

| member | source | states |
|---|---|---|
| GoStrings.TrimPrefix | internal/hollow/editor/editor.go:431 | `strings.TrimPrefix`: drops the prefix once when the string starts with it, and otherwise returns the string unchanged |
| GoStrings.TrimSuffix | internal/bblog/bblog.go:355 | `strings.TrimSuffix`: drops the suffix once when the string ends with it, and otherwise returns the string unchanged |
| GoStrings.Repeat | internal/bblog/hollow.go:393-400 | `strings.Repeat` of one character: exactly n copies of it |
| GoStrings.Utf8Width | internal/bblog/hollow.go:396-397 | a character takes one to four bytes in UTF-8, and one exactly when it is ASCII |
| GoStrings.Utf8Len | internal/bblog/hollow.go:396-397 | Go's `len` of a string lies between its character count and four times it |
| GoStrings.Utf8LenAscii | internal/bblog/hollow.go:396-397 | `len` equals the character count exactly when the string is ASCII |
| GoStrings.Utf8LenAppend | internal/bblog/hollow.go:396-397 | `len` adds up over concatenation |
| GoStrings.Utf8LenRepeat | internal/bblog/hollow.go:396-397 | a run of n `*` has n bytes |
| GoStrings.IndexOf | internal/pkg/fusefs/fusefs.go:118 | the position of the first occurrence of the character, or -1 exactly when it does not occur |
| GoStrings.LastIndexOf | internal/hollow/editor/editor.go:673 | `strings.LastIndex` of one character: the position of its last occurrence, or -1 exactly when it does not occur |
| GoStrings.Split | internal/hollow/editor/editor.go:677 | `strings.Split` on one character always gives at least one piece |
| GoStrings.SplitPiecesFree | internal/hollow/editor/editor.go:677 | no piece of a split contains the separator |
| GoStrings.JoinSplit | internal/hollow/editor/editor.go:677 | joining the pieces of a split with the separator gives back the string |
| GoStrings.SplitJoin | internal/hollow/editor/editor.go:677 | splitting a join of separator-free pieces gives back the pieces |
| GoPath.SplitPath | internal/bblog/bblog.go:351 | `filepath.Split`: the two halves concatenate to the path, the file half has no `/`, and the directory half is empty or ends in `/` |
| GoPath.Ext | internal/bblog/bblog.go:353 | `filepath.Ext`: empty, or a dot-led, slash-free suffix of the path |
| GoPath.ElementsNormal | internal/bblog/bblog.go:207 | a cleaned path's elements are never empty or `.`, and `..` appears only as a leading block of a relative path |
| GoPath.RootedNoDotDot | internal/bblog/bblog.go:207 | a rooted path such as `"/" + name` cleans to elements none of which is `..` |
| GoPath.CleanElements | internal/bblog/bblog.go:207 | cleaning keeps whether the path is rooted and its cleaned elements |
| GoPath.CleanIdempotent | internal/bblog/bblog.go:207 | `path.Clean` is idempotent |
| GoPath.JoinRooted | internal/bblog/bblog.go:199-213 | joining a directory with the clean form of `"/" + name` gives the directory's elements followed by the name's own elements, so the name cannot climb above the directory |
| GoStrings.TrimLeft | internal/hollow/hollow.go:61 | `strings.TrimLeft` of one character: a suffix of the input, everything removed is that character, and what is left does not start with it |
| GoStrings.TrimRight | internal/hollow/hollow.go:61 | `strings.TrimRight` of one character: a prefix of the input, everything removed is that character, and what is left does not end with it |
| GoStrings.IndexOfSub | internal/hollow/content_loader.go:61 | `bytes.Index` from a position: -1 or an occurrence at or after it, with no earlier occurrence from that position |
| WsHub.Decimal | internal/pkg/ws/wshub.go:34 | the random key `fmt.Sprintf("%v", n)` is a non-empty run of decimal digits |
| WsHub.AddKey | internal/pkg/ws/wshub.go:33-35 | the key a connection is stored under is never empty, and is the given key whenever that is non-empty |
| WsHub.Empty | internal/pkg/ws/wshub.go:18-24 | a new hub has no connections, no backlog and has written nothing |
| WsHub.AddStep | internal/pkg/ws/wshub.go:30-43 | Add closes a connection already stored under the key, stores the new one, leaves every backlog unchanged, and writes the key's whole backlog to the new connection |
| WsHub.SendStep | internal/pkg/ws/wshub.go:45-59 | Send always appends the body to the key's backlog; with a connection it writes exactly the body and reports that write's failure, without one it writes nothing and reports no error; the connection table is unchanged |
| WsHub.CloseStep | internal/pkg/ws/wshub.go:61-70 | Close removes only that key's connection (closing it if present), keeps every backlog, and touches no other key |
| WsHub.Writes | internal/pkg/ws/wshub.go:73-74 | the writes of one body to the connections of the keys, one per key, in order |
| WsHub.FirstFailure | internal/pkg/ws/wshub.go:73-78 | the position of the first connection whose write fails: every earlier one succeeds and that one fails |
| WsHub.SendAllOutcome | internal/pkg/ws/wshub.go:72-81 | SendAll errs exactly when some visited connection fails; without an error every connection got the body once in visiting order, with one the writes stop right after the first failing connection |
| WsHub.LateSubscriberReplay | internal/pkg/ws/wshub.go:42-49 | after any number of sends under a key with nobody attached, Add writes the new connection the earlier backlog followed by every body, in order |
| WsHub.BacklogAfterSends | internal/pkg/ws/wshub.go:49 | a run of sends leaves the key's backlog extended by the bodies in order and the connection table unchanged |
| WsHub.EmptySynced | internal/pkg/ws/wshub.go:18-24 | the new hub satisfies the replay invariant: every attached connection has been written exactly its key's backlog, and no connection sits under two keys |
| WsHub.AddKeepsSynced | internal/pkg/ws/wshub.go:30-43 | Add of a fresh connection preserves the replay invariant, so there is at most one connection per key and a late subscriber holds the whole backlog |
| WsHub.SendKeepsSynced | internal/pkg/ws/wshub.go:45-59 | Send preserves the replay invariant whether or not the write fails |
| WsHub.CloseKeepsSynced | internal/pkg/ws/wshub.go:61-70 | Close preserves the replay invariant |
| WsHub.SendAllBypassesBacklog | internal/pkg/ws/wshub.go:72-81 | SendAll writes without recording the body in any backlog, so it can break the replay invariant |
| WsHub.Hub.constructor | internal/pkg/ws/wshub.go:18-24 | NewHub: the hub's state is the empty one |
| WsHub.Hub.Add | internal/pkg/ws/wshub.go:30-43 | the hub's new state is AddStep of the old one |
| WsHub.Hub.Send | internal/pkg/ws/wshub.go:45-59 | the new state and the error are SendStep of the old state |
| WsHub.Hub.Close | internal/pkg/ws/wshub.go:61-70 | the new state is CloseStep of the old one, and the result is never an error |
| WsHub.Hub.SendAll | internal/pkg/ws/wshub.go:72-81 | for a visiting order that lists every key of the table exactly once, as a map range does: tables unchanged; the writes made and the error are those of SendAllWrites for that order |
| AsyncTask.EmitCalls | internal/pkg/asynctask/asynctask.go:54-58 | Emit calls the listener exactly once when one is installed, and makes no call otherwise |
| AsyncTask.Task.constructor | internal/pkg/asynctask/asynctask.go:74-79 | a new task has its key, its manager and a nil (empty) log |
| AsyncTask.Task.Write | internal/pkg/asynctask/asynctask.go:32-35 | Write logs the bytes as one line and returns their length with no error |
| AsyncTask.Task.Log | internal/pkg/asynctask/asynctask.go:37-43 | Log appends the line to the log in order and emits exactly one not-done event carrying it; the task table and the listener are unchanged |
| AsyncTask.Task.Done | internal/pkg/asynctask/asynctask.go:45-52 | Done emits one done event with an empty log, then unregisters only the task's key |
| AsyncTask.Manager.constructor | internal/pkg/asynctask/asynctask.go:14-16 | a new manager has no tasks and no listener |
| AsyncTask.Manager.Emit | internal/pkg/asynctask/asynctask.go:54-58 | Emit records the calls EmitCalls gives: one call to the installed listener, none without one |
| AsyncTask.Manager.RemoveTask | internal/pkg/asynctask/asynctask.go:60-64 | RemoveTask deletes exactly the task's key, and leaves the table unchanged when the key is absent |
| AsyncTask.Manager.NewTask | internal/pkg/asynctask/asynctask.go:66-83 | isNew holds exactly when the key was unregistered; then a fresh task with an empty log is registered under it, otherwise the registered task is returned and the table is unchanged; other entries never change |
| AsyncTask.Manager.AddListener | internal/pkg/asynctask/asynctask.go:85-88 | AddListener replaces any earlier listener, so there is a single listener |
| AsyncTask.DoneThenNew | internal/pkg/asynctask/asynctask.go:45-83 | after Done, NewTask with the same key reports isNew and registers a fresh task with an empty log |
| EditorJobs.JobLinesShape | internal/hollow/editor/editor.go:531-543 | a job streams its start line first, then its own output in order, then its success or failure line |
| EditorJobs.JobClosesStream | internal/bblog/editor/editor.go:446-449 | however the job ends, its key has no connection afterwards, every other key keeps its connection, and the key's backlog has gained exactly the job's lines in order |
| EditorJobs.LateViewerSeesWholeJob | internal/hollow/editor/editor.go:528-546 | a browser that subscribes to the returned key after the job ended is sent the whole job log |
| EditorJobs.JobKeepsSynced | internal/hollow/editor/editor.go:528-544 | streaming a job and closing its key preserve the hub's replay invariant |
| EditorJobs.SendsKeepSynced | internal/hollow/editor/editor.go:531-543 | any run of sends preserves the hub's replay invariant |
| EditorJobs.SendStateIgnoresFailure | internal/pkg/ws/wshub.go:49-58 | the hub state after Send does not depend on whether the socket write failed |
| EditorJobs.WsSink.constructor | internal/bblog/editor/editor.go:594-595 | the sink writes to the given hub under the given key |
| EditorJobs.WsSink.Write | internal/bblog/editor/editor.go:576-584 | Write is one hub Send under the sink's key, returning `(0, err)` when it fails and `(len(p), nil)` otherwise |
| EditorJobs.RunJob | internal/hollow/editor/editor.go:528-544 | the job goroutine leaves the hub as if its lines were sent under the key in order and the key then closed (the deferred Close), whatever the individual writes did |
| EditorJobs.HandleTask | internal/hollow/editor/editor.go:502-547 | a failing file-system factory aborts with 400 and a failing builder is recorded as an error, both leaving the hub unchanged; otherwise the reply is the stream key, of the handlers' fixed length 6, and the hub shows the whole job streamed and closed |
| Domain.StripPort | internal/hollow/editor/editor.go:672-676 | a colon-free host is kept; otherwise everything from the last `:` is dropped, and the rest is the host's prefix before that colon |
| Domain.FirstStar | internal/hollow/editor/editor.go:688-690 | the position of the first `*` label of the pattern, or its length when there is none |
| Domain.MatchLabelsMeaning | internal/hollow/editor/editor.go:680-695 | label sequences match exactly when they have the same length and agree up to the pattern's first `*`; labels after a `*` are never compared, and two empty sequences match |
| Domain.ExactMatch | internal/hollow/editor/editor.go:685-694 | without any `*`, a pattern matches exactly the equal label sequence |
| Domain.Labels | internal/hollow/editor/editor.go:677 | splitting a dotted name made of dot-free labels gives the labels back |
| Domain.CaseSameTwoLabels | internal/bblog/editor/editor_test.go:17 | `bysir.top` matches `bysir.top` |
| Domain.CaseSameThreeLabels | internal/bblog/editor/editor_test.go:18 | `blog.bysir.top` matches `blog.bysir.top` |
| Domain.CaseWildcard | internal/bblog/editor/editor_test.go:19 | `*.bysir.top` matches `blog.bysir.top` |
| Domain.CaseWildcardTooDeep | internal/bblog/editor/editor_test.go:20 | `*.bysir.top` does not match `editor.blog.bysir.top`: a `*` stands for one label only |
| Domain.CaseParentDomain | internal/bblog/editor/editor_test.go:21 | `bysir.top` does not match `blog.bysir.top` |
| Domain.CaseOtherHost | internal/bblog/editor/editor.go:627-629 | `preview.blog.bysir.top` does not match `editor.blog.bysir.top`: the first labels differ |
| Domain.CaseOtherHostWithPort | internal/bblog/editor/editor_test.go:22 | `preview.blog.bysir.top` does not match `editor.blog.bysir.top:9091` |
| Domain.MatchDomainCases | internal/bblog/editor/editor_test.go:16-23 | all six cases of the matching test hold |
| Domain.PortIgnored | internal/bblog/editor/editor.go:607-614 | a host matches with a port appended exactly when it matches without it |
| Domain.EditorPortIgnored | internal/bblog/editor/editor.go:609-612 | the `:9091` port of the editor host is ignored |
| Domain.MatchSelf | internal/hollow/editor/editor.go:680-695 | every label sequence matches itself |
| Domain.SameName | internal/hollow/editor/editor.go:672-695 | a host without a port matches itself as a pattern |
| Domain.StarFirst | internal/hollow/editor/editor.go:688-690 | a `*` first label matches any one first label before the same rest |
| Domain.FirstDiffers | internal/hollow/editor/editor.go:691-693 | different first labels, the pattern's not `*`, before the same rest never match |
| Domain.OneLabelMore | internal/hollow/editor/editor.go:681-683 | a host with one label in front of the pattern never matches it |
| Domain.TwoLabelsForOne | internal/hollow/editor/editor.go:681-683 | a host with two labels before a rest never matches a pattern with one label before the same rest |
| HollowEditor.ErrorResponse | internal/hollow/editor/editor.go:120-140 | no error gives no reply; otherwise only the first error is answered, always with HTTP 400, its text as message, and body code 401 exactly for the login error and 400 for any other |
| HollowEditor.AuthGate | internal/hollow/editor/editor.go:144-160 | the auth middleware lets a request through exactly when the token cookie is non-empty and passes the token check, and refuses it with the login error otherwise |
| HollowEditor.AuthDecision | internal/hollow/editor/editor.go:227-261 | an empty secret succeeds exactly when the token cookie passes the check and sets no cookie; a non-empty secret succeeds exactly when it equals the configured one and then sets the `token` cookie for 7*24*3600 s; every refusal is the login error |
| HollowEditor.AuthRefusalIs401 | internal/hollow/editor/editor.go:128-256 | a refused login is answered with HTTP 400 and body code 401 |
| HollowEditor.PartName | internal/hollow/editor/editor.go:427-430 | the stored name is the Content-Disposition filename when that is present and non-empty, and the multipart filename otherwise |
| HollowEditor.Paths | internal/hollow/editor/editor.go:431-432 | each part's path is its name without one leading `/`, joined under the target directory, in part order |
| HollowEditor.UploadAllOkPaths | internal/hollow/editor/editor.go:407-447 | when every part goes through, the reply lists the stored paths in processing order |
| HollowEditor.UploadAllOkOps | internal/hollow/editor/editor.go:435-444 | when every part goes through, each one is created and then written with its whole body, in order |
| HollowEditor.UploadStopsAtFailure | internal/hollow/editor/editor.go:410-444 | the first failing part ends the upload with an error reply instead of the path list, and no later part is touched |
| HollowEditor.UploadHandler | internal/hollow/editor/editor.go:407-447 | the handler's loop performs the store operations and gives the reply of the recursive Upload definition |
| BblogEditor.ProjectFs | internal/bblog/editor/editor.go:144-151 | the bucket `theme` is served by the theme factory and every other bucket, the empty one included, by the project factory |
| BblogEditor.ErrorResponse | internal/bblog/editor/editor.go:120-134 | no error gives no reply; otherwise exactly one reply, for the first error, with HTTP 200 and body code 500 |
| BblogEditor.TreeParamsStatus | internal/bblog/editor/editor.go:215-218 | the file-tree request is refused with 400 exactly when the bucket is empty or the project id is 0 |
| Bblog.OutputFileIsIndex | internal/bblog/bblog.go:162-166 | every page goes to a file named `index.html`: the site's own for the names `""` and `index`, and `name/index.html` for any other name |
| Bblog.Defaults | internal/bblog/bblog.go:91-98 | NewBblog uses the given file system or the standard one, and the given theme file system or else the project's own |
| Bblog.DirFsStaysInside | internal/bblog/bblog.go:199-213 | the opened path is the prefix's elements (`.` when the prefix is empty) followed by the cleaned name's elements, none of which is `..`, so no name reaches above the prefix |
| Bblog.LoadBlog | internal/bblog/bblog.go:350-388 | unsupported extensions give `ok=false` with no error; a loaded blog is named by its base name without the extension, keeps the extension, and is rendered only on demand |
| Bblog.SidecarOverrides | internal/bblog/bblog.go:407-426 | a missing sidecar keeps the front matter; a readable sidecar's keys override the front matter's and all other front-matter keys are kept, with timestamps formatted |
| Bblog.CollectFails | internal/bblog/bblog.go:393-396 | the walk fails exactly when some step fails |
| Bblog.CollectListsSteps | internal/bblog/bblog.go:393-437 | the walk lists at most one blog per step, and each listed blog is what some step produced |
| Bblog.BlogsSkipDirectories | internal/bblog/bblog.go:397-399 | a walk over directories only lists nothing |
| Bblog.NothingListed | internal/bblog/bblog.go:397-406 | walk steps that each list nothing give an empty listing |
| Bblog.GetBlogLoop | internal/bblog/bblog.go:391-445 | the walk loop's result is the GetBlog definition: the listed blogs in walk order, or nothing when a step fails |
| Bblog.ErrSticks | internal/bblog/bblog.go:393-396 | once a step fails, the whole walk fails |
| Loaders.SplitN3 | internal/hollow/content_loader.go:61 | `bytes.SplitN(body, "---", 3)`: one to three pieces, cut at the first two occurrences of the separator, which join back to the input |
| Loaders.SplitFrontMatterMeaning | internal/hollow/content_loader.go:59-71 | front matter is found exactly when the body starts with `---\n` and a second `---` follows; the body is then the dashes, the front matter, the closing dashes and the new body |
| Loaders.FrontMatterRoundTrip | internal/hollow/content_loader.go:60-70 | a file written as `---`, front matter starting with a newline and free of `---`, `---`, body, splits into exactly that front matter and body |
| Loaders.FormatTimes | internal/hollow/content_loader.go:74-79 | formatting timestamps keeps the metadata's key set |
| Loaders.FormatTimesMeaning | internal/hollow/content_loader.go:74-79 | afterwards no value is a timestamp, every non-timestamp value is unchanged, and formatting again changes nothing |
| Loaders.FormatTimesLoop | internal/hollow/content_loader.go:74-79 | the range loop over the metadata gives FormatTimes of it |
| Loaders.FileDir | internal/hollow/content_loader.go:46-49 | the file's directory always starts with `/`, and with the file name it gives back the path, made absolute |
| Loaders.FirstAsset | internal/hollow/content_loader.go:97-98 | the first asset directory, in order, whose `"/"+asset` prefixes the URL, or -1 when none does |
| Loaders.StripAsset | internal/hollow/content_loader.go:96-102 | only the first matching `"/"+asset` prefix is removed; a URL no prefix matches is unchanged |
| Loaders.StripAssetLoop | internal/hollow/content_loader.go:97-102 | the loop that breaks at the first removed prefix gives StripAsset |
| Loaders.JoinUnderRooted | internal/hollow/content_loader.go:93 | joining onto a directory that starts with `/` gives a path that starts with `/` |
| Loaders.RewriteUrlUnmatched | internal/hollow/content_loader.go:90-104 | a URL no asset prefix matches comes out absolute, and a relative one is joined onto the file's directory |
| Loaders.Finish | internal/hollow/content_loader.go:107-141 | with withContent the content is rendered at load and a render error fails the load; without it the content is `""` and nothing can fail; name, extension, metadata and body are kept |
| Loaders.EagerMatchesLazy | internal/hollow/content_loader.go:117-137 | whenever an eager load succeeds, the lazy load succeeds too and GetContent answers the same in both, with or without Pure |
| Loaders.LazyRenderErrorIsText | internal/hollow/content_loader.go:122-125 | without withContent, a render error is returned by GetContent as the error's text |
| Loaders.ReadFrontMatter | internal/hollow/content_loader.go:59-71 | without front matter the metadata is empty and the body unchanged; with it, the load fails exactly when the YAML parse fails, with the message prefixed by `parse file metadata error: `, and otherwise the body is the rest |
| Loaders.PrefixOf | internal/hollow/content_loader.go:66 | a message built as a prefix plus a text starts with that prefix |
| Loaders.BaseName | internal/bblog/bblog.go:351-355 | the base name with the extension removed, which together with the extension is the file's base name |
| ContentLoader.RelativeOpen | internal/hollow/content_loader.go:40-43 | relativeFs opens the name joined onto its relative directory in the underlying file system |
| ContentLoader.RelativeOpenUnderDir | internal/hollow/content_loader.go:46-84 | the `.mdx` renderer's relative view, rooted at the file's directory, asks only for absolute paths |
| ContentLoader.MdLoadMeaning | internal/hollow/content_loader.go:45-142 | a read error is returned as is; a loaded file has the path's base name and extension, no timestamp in its metadata, the body after the front matter (or the whole file and empty metadata without front matter), and rendered content exactly when withContent; without front matter and withContent a successful read always loads |
| ContentLoader.MdLinksRewritten | internal/hollow/content_loader.go:89-105 | a file other than `.mdx` is rendered with the URL rewriter for its own directory |
| ContentLoader.HtmlLoadMeaning | internal/hollow/content_loader.go:148-207 | an HTML load fails exactly on a read or metadata error; Content is the body exactly when withContent, and GetContent always returns the body |
| MdRender.StrKeys | internal/hollow/md_render.go:84-85 | the string keys of an interface-keyed map, as strings |
| MdRender.ToStrMap | internal/hollow/md_render.go:74-97 | the conversion fails (the source panics) exactly when some interface-keyed map at any depth has a non-string key; otherwise the result holds no interface-keyed map at any depth |
| MdRender.ScalarUnchanged | internal/hollow/md_render.go:94-95 | values that are neither maps nor lists are returned unchanged |
| MdRender.ListShape | internal/hollow/md_render.go:88-93 | a list keeps its length, and element i is the conversion of the original element i |
| MdRender.StrMapShape | internal/hollow/md_render.go:76-81 | a string-keyed map keeps its key set, and each value is converted |
| MdRender.AnyMapShape | internal/hollow/md_render.go:82-87 | a converted interface-keyed map has only string keys and becomes a string-keyed map with the same entries, values converted |
| MdRender.NormalUnchanged | internal/hollow/md_render.go:74-97 | a value with no interface-keyed map anywhere is returned exactly as it is |
| MdRender.ToStrMapIdempotent | internal/hollow/md_render.go:73-97 | converting twice equals converting once |
| Hollow.GetPath | internal/hollow/hollow.go:49-63 | a script value exporting a non-string fails (None), where the source's type assertion panics; a string or string-exporting script value gives its trimmed path; any other entry gives `""`; a page path never starts or ends with `/` |
| Hollow.GetPathInside | internal/hollow/hollow.go:60-61 | the page path is the original with nothing but `/` characters removed from either end |
| Hollow.GetPathIdempotent | internal/hollow/hollow.go:61 | trimming an already trimmed path changes nothing |
| Hollow.PrepareThemeUrl | internal/hollow/hollow.go:530-541 | an address starting with `http://`, `https://`, `file://` or `source://` is kept, and any other gets the default scheme in front |
| Hollow.PrepareThemeUrlSettles | internal/hollow/hollow.go:530-541 | with a known default scheme the result always has a known scheme, and preparing it again changes nothing |
| Hollow.ThemeUrl | internal/hollow/hollow.go:604-610 | the project's theme with `source://` by default, overridden by a non-empty fixed theme with `file://` by default |
| Hollow.GetThemeLoader | internal/hollow/hollow.go:547-570 | `http(s)://` gives the git loader, an address without a known scheme the unsupported-protocol error, and `file://` a directory loader whose path stays relative when it starts with `.` and is made absolute otherwise |
| Hollow.ThemeUrlSupported | internal/hollow/hollow.go:651-655 | the theme address the builder computes never hits the unsupported-protocol error; the only possible loader error is a failing Chroot for a `source://` address |
| Hollow.OutputFileSettles | internal/hollow/hollow.go:245-254 | every output file name has an extension: a path with an extension is kept, any other becomes `path/index.html`, so naming it again leaves it unchanged |
| Hollow.JoinEndsWith | internal/hollow/hollow.go:253 | a path joined with a plain element ends with that element |
| Hollow.IndexHtmlFacts | internal/hollow/hollow.go:253 | `index.html` is a plain, slash-free element with extension `.html` |
| Hollow.ElementsSnoc | internal/hollow/hollow.go:253 | joining a plain element under a non-empty path appends it to the path's elements |
| Hollow.FirstOpen | internal/hollow/hollow.go:888-899 | the layered open finds nothing exactly when no layer has the name |
| Hollow.FirstOpenIsFirst | internal/hollow/hollow.go:889-895 | a file found comes from the first layer that opens it |
| Hollow.MuitDirOpen | internal/hollow/hollow.go:888-899 | the loop returns `fs.ErrNotExist` exactly when no layer opens the name, and otherwise the first layer's file |
| Hollow.StripParagraph | internal/hollow/hollow.go:1243-1244 | trimming `<p>` and `</p>` off a wrapped paragraph gives the paragraph's text |
| Hollow.UnwrapRules | internal/hollow/hollow.go:1241-1246 | with Unwrap, output holding exactly one `<p>` and wrapped in it is unwrapped; output with any other count of `<p>` is kept, and without Unwrap nothing changes |
| Hollow.OnTaskEvent | internal/hollow/hollow.go:187-193 | the task listener closes the key's hub stream for a done event and otherwise sends the log text under the key |
| Hollow.LogCalls | internal/pkg/asynctask/asynctask.go:37-43 | a task logging lines makes one not-done listener call per line, carrying it, in order |
| Hollow.ReplayLogs | internal/hollow/hollow.go:187-193 | the listener fed a task's log calls sends each line under the task's key, in order |
| Hollow.TaskLifetime | internal/hollow/hollow.go:187-193 | a task's log lines and then its done event stream the lines under its key and close that stream, the same hub outcome as an editor job |
| ContentTrees.Keep | internal/hollow/hollow.go:932-937 | the kept elements are exactly those of the list the predicate accepts, never more than the list |
| ContentTrees.KeepAppend | internal/hollow/hollow.go:932-937 | filtering a concatenation filters each part and keeps their order |
| ContentTrees.KeepAll | internal/hollow/hollow.go:932-937 | a predicate accepting every element keeps the whole list |
| ContentTrees.FlatHollowIsPreorder | internal/hollow/hollow.go:942-958 | hollow's Flat is the pre-order listing of every node with directories dropped unless includeDir |
| ContentTrees.FlatHollowAll | internal/hollow/hollow.go:942-958 | with includeDir, hollow's Flat lists every node in pre-order |
| ContentTrees.FlatHollowLoop | internal/hollow/hollow.go:942-958 | the loop, recursing into each element's children, computes hollow's flattening |
| ContentTrees.FlatBblogEmpty | internal/bblog/hollow.go:604-616 | bblog's Flat is empty exactly for an empty forest |
| ContentTrees.FlatBblogLeaves | internal/bblog/hollow.go:604-616 | without includeDir, bblog's Flat lists exactly the leaves in pre-order, empty directories included and non-empty ones not |
| ContentTrees.FlatBblogAll | internal/bblog/hollow.go:604-616 | with includeDir, bblog's Flat lists every node in pre-order |
| ContentTrees.EmptyDirFlattenings | internal/bblog/hollow.go:604-616 | an empty directory is dropped by hollow's Flat and kept by bblog's |
| ContentTrees.FlatBblogLoop | internal/bblog/hollow.go:604-616 | the loop computes bblog's flattening |
| ContentTrees.Filter | internal/hollow/hollow.go:928-940 | no predicate returns the list itself; a predicate returns exactly the accepted top-level elements, in order |
| ContentTrees.MapDirLoop | internal/hollow/hollow.go:998-1030 | the walk returns the listing error, the first callback or sub-walk error, or the trees of the entries the callback takes, in listing order, with children for directories |
| ContentTrees.MapEntriesErrSticks | internal/hollow/hollow.go:1008-1022 | once the walk has failed, the later entries do not change the error |
| ContentTrees.MapDirNodes | internal/hollow/hollow.go:998-1030 | every node of a successful walk, at any depth, carries content the callback chose to list |
| ContentTrees.MapEntriesNodes | internal/hollow/hollow.go:1004-1028 | the same for the trees of the first k entries |
| ContentTrees.MapEntriesError | internal/hollow/hollow.go:1008-1010 | a callback error on any listed entry fails the walk |
| ContentTrees.MapDirError | internal/hollow/hollow.go:998-1010 | a callback error on any entry of a directory fails the whole walk |
| ContentSort.LevelTree | internal/hollow/hollow.go:918-926 | every tree of a sorted level is one of the level's input trees, with the same content and its own children sorted the same way |
| ContentSort.LevelContents | internal/hollow/hollow.go:919-921 | sorting a level keeps its contents, as a permutation |
| ContentSort.SortKeepsNodes | internal/hollow/hollow.go:918-926 | Sort keeps every node of the forest, at every depth, and adds none |
| ContentSort.SortEveryLevel | internal/hollow/hollow.go:918-926 | under a strict order that looks at contents only, every level of the sorted forest is sorted, the top one and every Children list below it |
| ContentSort.SortLevelUnique | internal/hollow/hollow.go:919-921 | when `less` is a strict order that ranks every two different trees of the level, any sorted permutation of the level is the one modelled, so sort.Slice's instability changes nothing |
| ContentSort.Sort | internal/hollow/hollow.go:918-926 | sort.Slice on the level followed by the range loop over its trees, each tree's children sorted by the recursive call, computes the sorted forest |
| ContentSort.ContentsSort | internal/hollow/hollow.go:919-921 | the level sort moves trees but keeps the multiset of their contents |
| ContentSort.NodeBagSort | internal/hollow/hollow.go:919-921 | the level sort keeps every node below the level as well, since it moves whole trees |
| BblogHollow.MaskingHidesOnlyValues | internal/bblog/hollow.go:392-399 | when every variable's value is ASCII, the masked configuration text has the real text's length, and differs from it only at positions holding `*` |
| BblogHollow.MaskingKeepsBytes | internal/bblog/hollow.go:392-399 | the mask has one `*` per byte of each value, as `len` counts, so the masked text has the real text's UTF-8 length |
| BblogHollow.MaskCountsBytes | internal/bblog/hollow.go:396-397 | a value of one two-byte character is masked as `**` |
| BblogHollow.MaskingWithoutReferences | internal/bblog/hollow.go:392-399 | a configuration without variable references reads the same masked or expanded |
| BblogHollow.Visit | internal/bblog/hollow.go:849-855 | a callback error stops the walk, a result with an empty name is left out, and any other result is listed |
| BblogHollow.WalkHasNoNamelessNodes | internal/bblog/hollow.go:840-870 | no node of bblog's content tree, at any depth, has an empty name |
| BblogHollow.ExtOfBase | internal/bblog/hollow.go:627-635 | a file's extension is a suffix of its base name |
| BblogHollow.MdLoadRules | internal/bblog/hollow.go:626-715 | MDBlogLoader.Load: an extension other than `.md` and `.html` means no content and no error; a supported file fails exactly when reading or its metadata fails; and the content's name plus its extension make up the base name again |
| BblogHollow.HtmlLoadRules | internal/bblog/hollow.go:720-780 | HtmlLoader.Load keeps the same three rules |
| BblogHollow.Unwrap | internal/bblog/hollow.go:1015-1022 | without Unwrap the output is kept; with it, output wrapped in `<p>`…`</p>` loses exactly that wrapping |
| BblogHollow.UnwrapComparedWithHollow | internal/bblog/hollow.go:1017-1020 | on one wrapped paragraph bblog strips the wrapping; hollow strips it only when there is exactly one `<p>` and otherwise keeps the output |
| FuseFs.NormRoot | internal/pkg/fusefs/fusefs.go:39-46 | the root loses one leading `/`, always ends with `/`, and otherwise keeps the option's text |
| FuseFs.DirKey | internal/pkg/fusefs/fusefs.go:231-241 | Mkdir has no key exactly for the empty name; every key it stores ends with `/` |
| FuseFs.OpenDirKey | internal/pkg/fusefs/fusefs.go:84-87 | the directory key OpenDir looks up always ends with `/` |
| FuseFs.MkdirKeyIsOpenDirKey | internal/pkg/fusefs/fusefs.go:231-241 | Mkdir of a name stores exactly the key OpenDir of that name looks up, and Mkdir(`/`) the key of OpenDir(`""`), so a made directory can be listed |
| FuseFs.SplitRootPaths | internal/pkg/fusefs/fusefs.go:238 | the pieces of the two joined paths the root example produces |
| FuseFs.CleanRootPaths | internal/pkg/fusefs/fusefs.go:238 | path.Join's cleaning of `a//a/` and `a//`, the two joins in the root example |
| FuseFs.AsWrittenRootKey | internal/pkg/fusefs/fusefs.go:38-58 | for the root option `a`, NewFuseFs's Mkdir(root) stores `a/a/` while OpenDir(`""`) looks up `a/` |
| FuseFs.NormRootA | internal/pkg/fusefs/fusefs.go:39-46 | the root option `a` normalises to `a/` |
| FuseFs.SelfJoinedDirKey | internal/pkg/fusefs/fusefs.go:56 | Mkdir of the root `a/` under itself stores `a/a/` |
| FuseFs.RootOpenDirKey | internal/pkg/fusefs/fusefs.go:84-87 | OpenDir(`""`) under root `a/` looks up `a/` |
| FuseFs.DirectoryItselfSkipped | internal/pkg/fusefs/fusefs.go:104-108 | the directory's own key is never listed |
| FuseFs.ChildEntryModes | internal/pkg/fusefs/fusefs.go:124-132 | every entry listed is a directory or a regular file |
| FuseFs.ChildEntryMeaning | internal/pkg/fusefs/fusefs.go:104-132 | a key one level below the directory is listed as a regular file named by its rest when the rest has no `/`, as a directory (its `/` kept) when the only `/` is the last character, and not at all otherwise |
| FuseFs.ListingMeaning | internal/pkg/fusefs/fusefs.go:100-134 | an entry is listed exactly when some key of the listing yields it |
| FuseFs.EntryLessStrict | internal/pkg/fusefs/fusefs.go:137-147 | OpenDir's comparison is irreflexive and transitive |
| FuseFs.EntryLessTotal | internal/pkg/fusefs/fusefs.go:137-147 | any two different entries (each a directory or a regular file) are ordered one way or the other |
| FuseFs.OpenDirOrder | internal/pkg/fusefs/fusefs.go:136-148 | the sorted listing is a permutation of the listed entries, directories first and each group by name, and it is the only sorted permutation, so sort.Slice's lack of stability changes nothing |
| FuseFs.AttrOfMeaning | internal/pkg/fusefs/fusefs.go:195-229 | GetAttr fails with ENOENT exactly when neither the name nor the name with `/` is a key; a plain key is a 0644 regular file of its value's size; a directory key a 0755 directory |
| FuseFs.MkdirThenAttr | internal/pkg/fusefs/fusefs.go:231-248 | after Mkdir of a name no file holds, GetAttr of the name reports a directory |
| FuseFs.RenameAllOrNothing | internal/pkg/fusefs/fusefs.go:250-286 | Rename succeeds exactly when the old key exists and neither the Put nor the Delete fails, and then the value has moved with every other key untouched; any failure is EIO with the store as it was |
| FuseFs.RenameOntoItself | internal/pkg/fusefs/fusefs.go:274-285 | renaming a key onto itself deletes it |
| FuseFs.TruncateNeverGrows | internal/pkg/fusefs/fusefs.go:319-334 | Truncate succeeds exactly when the key exists and the Put succeeds, and then cuts the value to a prefix of at most the size, never extending it; otherwise the store is unchanged |
| FuseFs.FuseFS.constructor | internal/pkg/fusefs/fusefs.go:38-58 | the normalised root, with the root directory's key stored unless the Put fails |
| FuseFs.FuseFS.Create | internal/pkg/fusefs/fusefs.go:60-71 | EACCES for the empty name; otherwise a new empty file under the joined name, written to the store, EIO when that Put fails |
| FuseFs.FuseFS.Open | internal/pkg/fusefs/fusefs.go:73-81 | ENOENT unless the joined name is a key; the file opened holds that key's value |
| FuseFs.FuseFS.OpenDir | internal/pkg/fusefs/fusefs.go:83-149 | OK exactly when the directory key exists and the listing succeeds, and then the sorted entries of the listing; ENOENT with no entries otherwise |
| FuseFs.FuseFS.GetAttr | internal/pkg/fusefs/fusefs.go:195-229 | the status and attributes GetAttr's rules give |
| FuseFs.FuseFS.Mkdir | internal/pkg/fusefs/fusefs.go:231-248 | OK exactly for a non-empty name and a successful Put, storing the directory key with an empty value; ENOENT with the store unchanged otherwise |
| FuseFs.FuseFS.Rename | internal/pkg/fusefs/fusefs.go:250-286 | the store and status of the rename-with-undo step |
| FuseFs.FuseFS.Rmdir | internal/pkg/fusefs/fusefs.go:288-296 | the directory's tree deleted, that is its own key and every key below it, all starting with the joined name plus `/`; sibling keys extending the name are kept; or EIO with the store unchanged |
| FuseFs.FuseFS.Unlink | internal/pkg/fusefs/fusefs.go:298-310 | the joined name's key deleted, or EIO with the store unchanged |
| FuseFs.FuseFS.Truncate | internal/pkg/fusefs/fusefs.go:319-334 | the store and status of the truncate step |
| FuseFs.IOReader.constructor | internal/pkg/fusefs/fusefs.go:352-354 | a reader over the file starting at offset 0 |
| FuseFs.IOReader.Read | internal/pkg/fusefs/fusefs.go:356-367 | a read of a buffer's length at the cursor: a short or empty read comes with io.EOF and leaves the cursor; a full one advances it; the file's own panic is passed on |
| FuseFile.WrittenAttr | internal/pkg/fusefs/fusefile.go:134-145 | a write sets the creation mode when no mode is recorded, the time as ctime when none is recorded, mtime always, and the new size |
| FuseFile.WriteMeaning | internal/pkg/fusefs/fusefile.go:129-159 | a write succeeds exactly when the offset lies within the value and the Put succeeds; it then stores the value up to the offset followed by the data, reports the data's length, and the data reads back from its range; on EIO the store is unchanged; an offset beyond the value panics and changes nothing |
| FuseFile.WritesAppend | internal/pkg/fusefs/fusefile.go:143-158 | two writes in a row, the second where the first ended, store and hold both pieces |
| FuseFile.AsWrittenSecondWritePanics | internal/pkg/fusefs/fusefile.go:143-158 | as written, the second of those writes on a freshly created file panics: the empty value has no room, so append copies and the open file still holds the empty value |
| FuseFile.AsWrittenOverwritesOpenValue | internal/pkg/fusefs/fusefile.go:143-158 | as written, data that fits inside the open value overwrites it in place even when the Put fails, keeping its length, so after a successful write ending before the value's end the open value and the stored one differ |
| FuseFile.WriteStepOnlyValueDiffers | internal/pkg/fusefs/fusefile.go:143-158 | the corrected write and the source's write agree on the store, the outcome and the attributes; only the open value differs, which the corrected one sets to the stored body on success and leaves alone otherwise |
| FuseFile.AttrOf | internal/pkg/fusefs/fusefile.go:161-180 | GetAttr reports the value's size and the recorded times |
| FuseFile.WriteThenGetAttr | internal/pkg/fusefs/fusefile.go:129-180 | after a successful write to a non-directory key, GetAttr reports the written length, the write's time as mtime, the first write's time as ctime, and a regular file once anything is in it |
| FuseFile.File.constructor | internal/pkg/fusefs/fusefile.go:25-49 | the new file holds the key's value as its content, with no attribute record |
| FuseFile.File.Read | internal/pkg/fusefs/fusefile.go:115-127 | the bytes from the offset up to the buffer's length or the end of the value, or the panic of an offset beyond it |
| FuseFile.File.Write | internal/pkg/fusefs/fusefile.go:129-159 | the file, store and outcome of the corrected write step |
| FuseFile.File.GetAttr | internal/pkg/fusefs/fusefile.go:161-180 | the attributes of the GetAttr rules |
| FuseFile.FirstWrite | internal/pkg/fusefs/fusefile.go:143-158 | the first write at offset 0 into an empty file stores exactly the data, and fails only when the Put fails |
| KvStore.ModeFacts | internal/pkg/fusefs/fusefs.go:137-139 | the directory test on modes tells the directory modes from the regular-file modes and from 0 |
| KvStore.Store.constructor | internal/pkg/fusefs/fusefs.go:50-54 | the store holds the given keys and values |
| KvStore.DeleteTree | internal/pkg/fusefs/fusefs.go:288-296 | DeleteTree removes exactly the keys starting with the prefix and keeps every other value |
| KvStore.TreePrefix | internal/pkg/fusefs/fusefs.go:288-296 | a directory's tree prefix is its name followed by `/`, one character longer |
| KvStore.AsWrittenDeleteTakesSiblings | internal/pkg/fusefs/fusefs.go:288-296 | deleting by the bare joined name also removes a sibling key that extends the name, which is outside the directory's tree |
| KvStore.DeleteTreeKeepsSiblings | internal/pkg/fusefs/fusefs.go:288-296 | deleting by the tree prefix keeps every such sibling with its value, and keeps every key the bare-name deletion keeps |
| KvStore.ListedMeaning | internal/pkg/fusefs/fusefs.go:100-134 | an entry is listed exactly when some listed key yields it |
| KvStore.ListedAppend | internal/fs/fs.go:111-135 | listing a concatenation of keys lists each part in turn, so entries come out in key order |
| KvStore.ReadAt | internal/fs/file.go:76-88 | a read panics exactly for an offset beyond the value, and otherwise gives the bytes from the offset up to the buffer's length or the end |
| KvStore.ReaderStep | internal/fs/fs.go:292-303 | IOReader.Read fails exactly when the cursor is beyond the value, delivers the value's bytes at the cursor, reports io.EOF exactly for an empty or short read, and then keeps the cursor; a full read advances it by the buffer's length |
| KvStore.DrainDeliversRest | internal/pkg/fusefs/fusefs.go:356-367 | reading until io.EOF delivers exactly the rest of the file in order, whatever the buffer size; an empty buffer delivers nothing |
| KvFile.Pow256Eight | internal/fs/file.go:53-54 | eight bytes hold exactly the unsigned 64-bit values the times are kept in |
| KvFile.BigEndian | internal/fs/file.go:69-74 | binary.BigEndian.PutUint64 writes exactly n bytes |
| KvFile.FromBigEndian | internal/fs/file.go:53-54 | binary.BigEndian.Uint64 of n bytes is below 256 to the n |
| KvFile.FromBigEndianOfBigEndian | internal/fs/file.go:47-74 | decoding an encoded number gives the number back |
| KvFile.BigEndianOfFromBigEndian | internal/fs/file.go:47-74 | encoding a decoded number gives the bytes back |
| KvFile.ZeroHeader | internal/fs/file.go:27 | the header of a value too short to hold one is 17 bytes |
| KvFile.WithTimes | internal/fs/file.go:69-74 | writeAttr keeps the header's size and its unused first byte |
| KvFile.HeaderRoundTrip | internal/fs/file.go:47-74 | readAttr after writeAttr gives back the times written, and writing back the times read gives back the header |
| KvFile.WithTimesTwice | internal/fs/file.go:69-74 | writing the times twice leaves only the second pair |
| KvFile.ZeroHeaderTimes | internal/fs/file.go:27 | a zero header reads as creation and modification time 0 |
| KvFile.Opened | internal/fs/file.go:25-41 | a stored value of at least 17 bytes opens as its header followed by its content; a shorter one is all content under a zero header |
| KvFile.WriteStep | internal/fs/file.go:90-114 | every write leaves the file with a full-size header |
| KvFile.WriteMeaning | internal/fs/file.go:90-114 | a write succeeds exactly when the offset lies within the value and the Put succeeds; the value becomes the old value up to the offset followed by the data (even when the Put fails); the creation time is kept unless it was never set, the modification time is the write's; a success stores the header followed by the value and reports the data's length, and no failure changes the store |
| KvFile.WriteThenOpen | internal/fs/file.go:25-41 | what a successful write stores opens again with the same value and header, so the same times |
| KvFile.AttrOf | internal/fs/file.go:116-136 | GetAttr reports the value's size (the header not counted) and the header's times |
| KvFile.WriteThenAttr | internal/fs/file.go:90-136 | after a successful write to a non-directory name, GetAttr reports the written length, the write's time, and a regular file once anything is in it |
| KvFile.File.constructor | internal/fs/file.go:25-41 | the file opened over a stored value, with a well-formed header |
| KvFile.File.Read | internal/fs/file.go:76-88 | the read rule over the file's value |
| KvFile.File.Write | internal/fs/file.go:90-114 | the file, store and outcome of the write step, keeping the header well formed |
| KvFile.File.GetAttr | internal/fs/file.go:116-136 | the attributes of the GetAttr rule |
| KvFile.FirstWrite | internal/fs/file.go:90-114 | the first write at offset 0 into a file just created at the same time stores the creation header followed by exactly the data, and fails only when the Put fails |
| KvFile.OpenFirstWrite | internal/fs/file.go:25-41 | what that first write stores opens as the data, with the creation and modification times both the write's |
| KvFs.DirPrefix | internal/fs/fs.go:115-123 | the prefix of the keys inside a directory is the directory's name with a `/` after it |
| KvFs.SplitDirKey | internal/fs/fs.go:115 | a directory key splits into itself and an empty base name |
| KvFs.SplitFileKey | internal/fs/fs.go:115 | a file key directly under a prefix splits into the prefix and its base name |
| KvFs.AsWrittenDirKey | internal/fs/fs.go:115-128 | as written, every directory key but the directory's own is listed, under its whole path with the leading `/` removed |
| KvFs.SlashInside | internal/fs/fs.go:127 | a `/` inside a directory path survives the removal of a leading `/` |
| KvFs.AsWrittenSubdirectoryName | internal/fs/fs.go:115-128 | as written, the key `name/c/` of a subdirectory `c` is listed under `name/c`, a name with `/` in it, where the corrected listing gives `c` |
| KvFs.AsWrittenSiblingListed | internal/fs/fs.go:101-128 | as written, the sibling directory `names/` of `name` is listed inside `name`, where the corrected listing leaves it out |
| KvFs.ChildEntryFile | internal/fs/fs.go:129-131 | a file directly inside the directory is listed under its base name |
| KvFs.ChildEntryDir | internal/fs/fs.go:126-128 | a subdirectory directly inside is listed as a directory under its own name without the `/` |
| KvFs.ChildEntryShape | internal/fs/fs.go:111-135 | every entry listed is a file or a directory whose name is one non-empty element without `/` |
| KvFs.ChildEntryKey | internal/fs/fs.go:111-135 | the directory's prefix followed by an entry's name, and `/` for a directory, is the key it was listed from |
| KvFs.ElementEntryShape | internal/fs/fs.go:125-131 | what follows the prefix is listed only as one element, or one element and `/` |
| KvFs.FilesAgree | internal/fs/fs.go:115-131 | on file keys directly inside the directory the source's filter and the corrected one list the same entry |
| KvFs.ListingMeaning | internal/fs/fs.go:111-135 | an entry is listed exactly when a key inside the directory yields it, and its name is one element |
| KvFs.AttrOfMatchesFile | internal/fs/fs.go:150-184 | GetAttr of a plain key succeeds as a regular file whose size is the size an open file of that key reports |
| KvFs.AsWrittenAttrSize | internal/fs/fs.go:179-182 | as written, a file just created (a bare 17-byte header) is reported 17 bytes long while the open file reports 0 |
| KvFs.TruncateKeepsHeader | internal/fs/fs.go:255-270 | Truncate succeeds exactly when the key exists and the Put succeeds, keeps the header and cuts the content to the requested size, never growing it; a failure is EIO with the store unchanged |
| KvFs.AsWrittenTruncateLosesContent | internal/fs/fs.go:262-266 | as written, truncating below 17 bytes keeps only header bytes, so the file reopens with header bytes as content instead of its content's first bytes |
| KvFs.KvFS.constructor | internal/fs/fs.go:37-62 | the root normalised as NewFuseFs does, over the store as it is |
| KvFs.KvFS.Create | internal/fs/fs.go:64-85 | EACCES for the empty name; otherwise a new empty file under the joined name whose stored value is a bare header with the creation time, EIO when the Put fails |
| KvFs.KvFS.Open | internal/fs/fs.go:87-96 | ENOENT unless the joined name is a key; the file holds the key's value with the header stripped |
| KvFs.KvFS.OpenDir | internal/fs/fs.go:98-137 | ENOENT only when the listing fails; otherwise the entries directly inside the directory, in store order |
| KvFs.KvFS.GetAttr | internal/fs/fs.go:150-184 | the status and attributes of GetAttr, a file's size counted without its header |
| KvFs.KvFS.Mkdir | internal/fs/fs.go:186-194 | the joined name with a trailing `/` stored with an empty value, or ENOENT with the store unchanged |
| KvFs.KvFS.Rename | internal/fs/fs.go:196-232 | the same rename-with-undo step as the fusefs file system |
| KvFs.KvFS.Rmdir | internal/fs/fs.go:234-242 | the directory's tree deleted, that is its own key and every key below it, all starting with the joined name plus `/`; sibling keys extending the name are kept; or EIO with the store unchanged |
| KvFs.KvFS.Unlink | internal/fs/fs.go:244-253 | the joined name's key deleted, or EIO with the store unchanged |
| KvFs.KvFS.Truncate | internal/fs/fs.go:255-270 | the store and status of the header-keeping truncate step |
| KvFs.IOReader.constructor | internal/fs/fs.go:288-290 | a reader over the file starting at offset 0 |
| KvFs.IOReader.Read | internal/fs/fs.go:292-303 | the IOReader step over the open file's value |
| StdFs.DirStat | internal/pkg/fusefs/stdfs/stdfs.go:66-96 | a directory's Stat gives its name, size 0 and a directory mode, and says it is a directory |
| StdFs.DirRead | internal/pkg/fusefs/stdfs/stdfs.go:98-100 | reading a directory reads nothing and reports no error |
| StdFs.ReadDir | internal/pkg/fusefs/stdfs/stdfs.go:106-114 | ReadDir ignores its count and gives one entry per entry OpenDir gave, in order |
| StdFs.EntryInfo | internal/pkg/fusefs/stdfs/stdfs.go:167-216 | an entry's Info has its name, size 0, its mode unless that is 0, and says directory exactly when the mode's S_IFDIR bit is set |
| StdFs.InfoModeVersusIsDir | internal/pkg/fusefs/stdfs/stdfs.go:179-192 | Mode and IsDir agree on every non-zero mode; on the zero mode Mode says directory and IsDir does not |
| StdFs.ListedModesAgree | internal/pkg/fusefs/stdfs/stdfs.go:179-192 | on the entries the fusefs OpenDir lists, Mode and IsDir always agree |
| StdFs.SFile.constructor | internal/pkg/fusefs/stdfs/stdfs.go:42-45 | a file reader over the open file, at offset 0 |
| StdFs.SFile.Stat | internal/pkg/fusefs/stdfs/stdfs.go:122-152 | the size and mode GetAttr gives over a zero record, under the file's name, never a directory |
| StdFs.SFile.Read | internal/pkg/fusefs/stdfs/stdfs.go:154-161 | the file's bytes from the cursor, the cursor moved past them; an empty read is io.EOF with the cursor kept; the file's panic is passed on |
| StdFs.ReadToEOFDeliversRest | internal/pkg/fusefs/stdfs/stdfs.go:154-161 | reading to io.EOF delivers the rest of the file in order for any non-empty buffer, the same bytes an IOReader delivers |
| StdFs.Fs.constructor | internal/pkg/fusefs/stdfs/stdfs.go:19-21 | the adapter over the given file system |
| StdFs.Fs.Open | internal/pkg/fusefs/stdfs/stdfs.go:26-59 | `/` only as a directory; any other name as a file when it is a key, else as the sorted directory listing when OpenDir succeeds, else os.ErrNotExist |
| EasyFs.StatusError | internal/pkg/dbfs/easyfs/easyfs.go:158-163 | no error exactly for the OK status |
| EasyFs.AfterLastSlashIsSplit | internal/pkg/dbfs/easyfs/easyfs.go:118 | the tree node's name is the file part of path.Split |
| EasyFs.GatherMeaning | internal/pkg/dbfs/easyfs/easyfs.go:130-153 | the entry loop finishes exactly when every entry gives an item, and then has one item per entry, in order |
| EasyFs.GatherFirstError | internal/pkg/dbfs/easyfs/easyfs.go:130-137 | when the loop stops, it stops at the first failing entry, with its error and the items of the entries before it |
| EasyFs.GatherStops | internal/pkg/dbfs/easyfs/easyfs.go:134-137 | once the loop has stopped, later entries change nothing |
| EasyFs.GatherItems | internal/pkg/dbfs/easyfs/easyfs.go:130-153 | every item gathered is the item one of the entries gives |
| EasyFs.MapAll | internal/bblog/editor.go:240-276 | mapping a list of trees keeps its length and maps each element |
| EasyFs.GatherMap | internal/bblog/editor.go:254-273 | entries whose outcomes are mapped gather the mapped items and the mapped error |
| EasyFs.TreeMeaning | internal/pkg/dbfs/easyfs/easyfs.go:117-129 | the tree's root is the directory itself, named by its last element; depth 0 lists nothing; a failed listing gives the bare root and a status error naming the path |
| EasyFs.TreeListed | internal/pkg/dbfs/easyfs/easyfs.go:126-155 | a listed directory's tree fails exactly when a subdirectory fails, with one item per entry in listing order when it does not, and the first failing subdirectory's error with the items before it when it does |
| EasyFs.EntryMeaning | internal/pkg/dbfs/easyfs/easyfs.go:131-152 | a subdirectory entry fails exactly when its own tree one level less deep fails; any other entry is a leaf named by the entry, under the joined path |
| EasyFs.TreeBounded | internal/pkg/dbfs/easyfs/easyfs.go:117-156 | the tree is never deeper than asked, whether it succeeds or not |
| EasyFs.EntryBounded | internal/pkg/dbfs/easyfs/easyfs.go:133-138 | a subdirectory's item is at most one level less deep |
| EasyFs.FlavoursAgree | internal/bblog/editor.go:240-276 | the blog editor's FileTree is easyfs's with every DirPath empty and the path left out of listing errors: the same shape, names and paths, failing at the same point |
| EasyFs.EntryFlavoursAgree | internal/bblog/editor.go:254-273 | the same for one entry |
| EasyFs.BuildTree | internal/pkg/dbfs/easyfs/easyfs.go:117-156 | the recursive loop builds exactly the specified tree and error |
| EasyFs.ReadAll | internal/pkg/dbfs/easyfs/easyfs.go:74 | ioutil.ReadAll over an IOReader returns the rest of the file from the reader's cursor |
| EasyFs.Fs.constructor | internal/pkg/dbfs/easyfs/easyfs.go:35-39 | the API over the given file system |
| EasyFs.Fs.Mkdir | internal/pkg/dbfs/easyfs/easyfs.go:41-47 | no error exactly when the name is not empty and the Put succeeds, storing the directory key; an ENOENT error with the store unchanged otherwise |
| EasyFs.Fs.RmDir | internal/pkg/dbfs/easyfs/easyfs.go:49-55 | the directory's tree removed, that is every key starting with the joined name plus `/`, sibling keys extending the name kept; or an EIO error with the store unchanged |
| EasyFs.Fs.RmFile | internal/pkg/dbfs/easyfs/easyfs.go:57-63 | the file's key removed, or an EIO error with the store unchanged |
| EasyFs.Fs.GetFile | internal/pkg/dbfs/easyfs/easyfs.go:65-89 | ENOENT unless the joined path is a key; otherwise the whole value, the path split into directory and name, a directory exactly for a key ending in `/`, and zero times |
| EasyFs.Fs.WriteFile | internal/pkg/dbfs/easyfs/easyfs.go:91-115 | refuses a path without a file name; makes the directory part, creates the file and writes the content, stopping at the first failure with the store as far as it got; on success the key holds exactly the content |
| FsApi.ReadAll | internal/bblog/editor.go:210 | ioutil.ReadAll over a kvfs IOReader returns the rest of the file from the reader's cursor |
| FsApi.Api.constructor | internal/bblog/editor.go:161-176 | the API over the given kvfs file system |
| FsApi.Api.Mkdir | internal/bblog/editor.go:178-180 | making a directory always succeeds and does nothing |
| FsApi.Api.RmDir | internal/bblog/editor.go:182-184 | removing a directory always succeeds and does nothing |
| FsApi.Api.RmFile | internal/bblog/editor.go:186-192 | the file's key removed, or an EIO error with the store unchanged |
| FsApi.Api.GetFile | internal/bblog/editor.go:201-224 | ENOENT unless the joined path is a key; otherwise the value without its header as the body, the header's times, the last path element as the name, no directory path, and a directory exactly for a key ending in `/` |
| FsApi.Api.WriteFile | internal/bblog/editor.go:227-238 | EACCES for the empty path; a failing Create leaves the store unchanged, a failing Write leaves a bare header; on success the key holds a header with the write's time twice and then the content, which opens again as the content |
| Sorting.StrLessIrreflexive | internal/pkg/fusefs/fusefs.go:146 | no name sorts before itself |
| Sorting.StrLessTransitive | internal/pkg/fusefs/fusefs.go:146 | Go's string order is transitive |
| Sorting.StrLessTotal | internal/pkg/fusefs/fusefs.go:146 | any two different names are ordered one way or the other |
| Sorting.Insert | internal/pkg/fusefs/fusefs.go:137-147 | inserting an element adds exactly it |
| Sorting.Sort | internal/pkg/fusefs/fusefs.go:137-147 | sorting keeps exactly the elements, as a permutation |
| Sorting.InsertSorted | internal/pkg/fusefs/fusefs.go:137-147 | under a strict order, inserting into a sorted list keeps it sorted |
| Sorting.SortSorted | internal/pkg/fusefs/fusefs.go:137-147 | under a strict order the sort's result is sorted |
| Sorting.SortedHead | internal/pkg/fusefs/fusefs.go:137-147 | two sorted permutations of elements the order ranks pairwise start with the same element |
| Sorting.SortedUnique | internal/pkg/fusefs/fusefs.go:137-147 | two sorted permutations of such elements are equal, so any correct sort gives the same result |
| Jsx.Unnest | internal/pkg/mdext/jsx.go:227-240 | a closing token lowers the nesting by one, and records the end just past it exactly when the nesting reaches zero |
| Jsx.Step | internal/pkg/mdext/jsx.go:210-242 | one token of the scan: the offset grows by the token's length; the start and the matched tag change only on the first named start tag, to its offset and name; the nesting changes only by one start or close of the matched tag; an end is recorded only when the nesting returns to zero |
| Jsx.RunOkNotFailed | internal/pkg/mdext/jsx.go:200-248 | the loop never reports both a closed tag and a lexer error |
| Jsx.ParseToClose | internal/pkg/mdext/jsx.go:190-249 | the loop of at most 20 steps gives exactly the results of the scan specification Parse |
| Jsx.PrefixTokens | internal/pkg/mdext/jsx.go:200-210 | every shorter prefix of reports that were all tokens is all tokens |
| Jsx.ScannedNext | internal/pkg/mdext/jsx.go:200-243 | scanning one more report is one more step of the scan |
| Jsx.RunMeaning | internal/pkg/mdext/jsx.go:200-248 | from any step the loop ends in one of three ways: an end recorded after some later token (ok, with the scan's start and end), a lexer error other than io.EOF (0, 0, not ok, error), or 20 steps, the end of the input or io.EOF (not ok, start so far) |
| Jsx.ParseMeaning | internal/pkg/mdext/jsx.go:190-249 | ok exactly when an end was recorded; the three outcomes of the loop with their results |
| Jsx.RunWindow | internal/pkg/mdext/jsx.go:200 | from any step, the loop's result depends on the first 20 reports only |
| Jsx.ParseWindow | internal/pkg/mdext/jsx.go:200 | ParseToClose looks at no more than 20 of the lexer's reports |
| Jsx.ScannedPos | internal/pkg/mdext/jsx.go:214-215 | the offset is the sum of the lengths of the tokens scanned |
| Jsx.ScannedStart | internal/pkg/mdext/jsx.go:217-225 | the matched tag is the name of the first start tag with a non-empty name and the start is its offset; while none occurred, no tag is matched |
| Jsx.SpacesFrom | internal/pkg/mdext/jsx.go:87 | the `[ ]` run from a position: all spaces, and maximal |
| Jsx.NameRun | internal/pkg/mdext/jsx.go:87 | the `[a-zA-Z0-9\-]` run from a position: all name characters, and maximal |
| Jsx.TagMatch | internal/pkg/mdext/jsx.go:87-103 | a match's second group is a valid tag name that sits in the line, not continued by a name character |
| Jsx.NameRunOf | internal/pkg/mdext/jsx.go:87 | a name followed by a non-name character, or by the end, is the whole run there |
| Jsx.SpacesOf | internal/pkg/mdext/jsx.go:87 | a run of n spaces followed by a non-space, or by the end, is the space run there |
| Jsx.TagMatchOfTag | internal/pkg/mdext/jsx.go:87-103 | every line of the expression's shape (up to three spaces, '<', optionally '/' and spaces, a name, then no name character) gives exactly that name back |
| Jsx.NameStartAfter | internal/pkg/mdext/jsx.go:87 | where the second group starts on a line of that shape: past the spaces, '<' and the optional '/' with its spaces |
| Jsx.SpacesThenAngle | internal/pkg/mdext/jsx.go:87 | a line of k spaces then '<' has the '<' at k |
| Jsx.SlashThenSpaces | internal/pkg/mdext/jsx.go:87 | the optional first group: a '/' followed by its run of spaces |
| Jsx.NameThenRest | internal/pkg/mdext/jsx.go:87 | a name followed by a non-name character is the run of name characters there |
| Jsx.TagMatchAt | internal/pkg/mdext/jsx.go:87-103 | up to three spaces, '<' and a name starting with a letter give that name as the second group |
| Jsx.WordOccursBetween | internal/pkg/mdext/jsx.go:126-127 | a tag name standing between non-word characters, or at the ends of the code, matches `\b<name>\b` |
| Jsx.Open | internal/pkg/mdext/jsx.go:89-136 | a JSX block is opened exactly when the block starts with '<', the tag expression matches with an upper-case first letter, ParseToClose closes the tag without error, and the tag occurs as a word in the page's code; the node then has that tag, covers start+offset to end+offset, and the reader advances by the segment's length less one |
| Jsx.OpenSegment | internal/pkg/mdext/jsx.go:114-133 | an opened block runs from the first named start tag to just past the end tag or self-closing tag that brought the nesting back to zero |
| Jsx.SegmentAt | internal/pkg/mdext/jsx.go:213-240 | the token after which the loop records an end is a self-closing or end tag that leaves the nesting at zero, and the end recorded is the lexer's offset just past it |
| Jsx.ParseSegment | internal/pkg/mdext/jsx.go:190-249 | a successful parse starts at the first named start tag and ends just past the token that closed the nesting, within the first 20 reports |
| EditorTools.LineStart | front/editor/src/pkg/codemirror/tools.tsx:26 | `doc.lineAt(pos).from`: no later than the position, just after a newline or at 0, and no newline in between |
| EditorTools.LineEnd | front/editor/src/pkg/codemirror/tools.tsx:26 | the line's end: no earlier than the position, at a newline or the end of the document, and no newline in between |
| EditorTools.CurrHead | front/editor/src/pkg/codemirror/tools.tsx:24-35 | the heading level is 0 exactly when the line does not start with '#' or has no space; otherwise it is the length of the text before the first space |
| EditorTools.SplitFirst | front/editor/src/pkg/codemirror/tools.tsx:28-30 | `split(" ", 2)` has a second piece exactly when there is a space, and the first piece is the text before the first space |
| EditorTools.CurrHeadBySplit | front/editor/src/pkg/codemirror/tools.tsx:24-35 | the level agrees with the source's own formulation through the split's first piece |
| EditorTools.MarkerLevel | front/editor/src/pkg/codemirror/tools.tsx:73-78 | a line starting with the marker of level k (k '#'s and a space) has heading level k |
| EditorTools.ApplyInLine | front/editor/src/pkg/codemirror/tools.tsx:63-78 | a change that cuts the start of one line and inserts text keeps the document before and after that line |
| EditorTools.HeadingEdit | front/editor/src/pkg/codemirror/tools.tsx:52-82 | onMenuClick changes only the cursor's line: no heading gets the marker inserted, the same level removes the marker, another level replaces it; afterwards the line is a level-k heading unless the heading was removed |
| EditorTools.HeadingRoundTrip | front/editor/src/pkg/codemirror/tools.tsx:60-79 | choosing the same level twice on a line without a heading gives the line back |
| EditorTools.HeadingRoundTripInDoc | front/editor/src/pkg/codemirror/tools.tsx:52-82 | the same round trip on the whole document: the second change undoes the first |
| EditorTools.HeadingCommand | front/editor/src/pkg/codemirror/tools.tsx:52-82 | the heading button rewrites exactly the line under the cursor, keeping the rest of the document |
| EditorTools.ImagesAppend | front/editor/src/pkg/codemirror/tools.tsx:149-158 | the markdown of two batches of images is that of the first followed by that of the second |
| EditorTools.InsertImages | front/editor/src/pkg/codemirror/tools.tsx:147-159 | each uploaded image's `![](url)` goes in at the cursor and the cursor moves past it, so the images land in upload order at the original cursor |
| FileEditor.WithBody | front/editor/src/component/FileEditor.tsx:41-63 | `{...props.file!, body}`: the file with only its body replaced |
| FileEditor.SplitLast | front/editor/src/component/FileEditor.tsx:70-72 | the last piece of a split is the text after the last separator |
| FileEditor.Ext | front/editor/src/component/FileEditor.tsx:69-73 | the extension is the text after the last '.' of the name, with no '.' in it, and "" when the name has no '.' or there is no file |
| FileEditor.SplitDots | front/editor/src/component/FileEditor.tsx:70-71 | a name without '.' splits into itself; with a '.', into several pieces, the last being the dot-free text after the last '.' |
| FileEditor.ExtOfDotted | front/editor/src/component/FileEditor.tsx:69-73 | a name made of a base, '.', and a dot-free extension has that extension |
| FileEditor.Extensions | front/editor/src/component/FileEditor.tsx:74-95 | line wrapping always comes first; a language mode follows exactly for md (markdown), yaml and yml (yaml), and js, jsx, ts and tsx (tsx) |
| FileEditor.Editor.constructor | front/editor/src/component/FileEditor.tsx:38 | the pane's body starts as the file's body, or "" without a file |
| FileEditor.Editor.OnChange | front/editor/src/component/FileEditor.tsx:54-67 | a change is passed on, as the file with the new body, only when its first transaction carries a user event; the pane's body follows every change |
| FileEditor.Editor.Edit | front/editor/src/component/FileEditor.tsx:54-67 | a user edit replaces the document and is passed on |
| FileEditor.Editor.Load | front/editor/src/component/FileEditor.tsx:107-138 | loading a file whose body differs from the document replaces the document without a user event: the pane's body follows and nothing is passed on |
| FileEditor.Editor.KeyDown | front/editor/src/component/FileEditor.tsx:140-145 | Meta+S saves the file with the pane's body; other keys change nothing |
| ProcessModal.SocketUrl | front/editor/src/particle/ProcessModal.tsx:52 | the socket address is "ws://", the service address, "/ws/" and the key |
| ProcessModal.SocketOpenedIffShown | front/editor/src/particle/ProcessModal.tsx:47-79 | the socket is open exactly after the dialog was shown, at the dialog's address |
| ProcessModal.LoadingUntilSocketCloses | front/editor/src/particle/ProcessModal.tsx:26-78 | the dialog is loading exactly until the socket opened by showing it has closed |
| ProcessModal.ClosesOnlyWhenDone | front/editor/src/particle/ProcessModal.tsx:89-94 | a close is passed on only once loading is over |
| ProcessModal.DoneStaysDone | front/editor/src/particle/ProcessModal.tsx:89-94 | once loading is over it stays over, and every later close request is passed on |
| ProcessModal.Dialog.constructor | front/editor/src/particle/ProcessModal.tsx:26 | the dialog starts loading, with no socket and nothing passed on |
| ProcessModal.Dialog.Show | front/editor/src/particle/ProcessModal.tsx:63-79 | showing the dialog opens the socket at its address |
| ProcessModal.Dialog.OnSocketClose | front/editor/src/particle/ProcessModal.tsx:53-78 | the socket's close ends loading |
| ProcessModal.Dialog.OnClose | front/editor/src/particle/ProcessModal.tsx:89-112 | the close button, Enter and OK pass the close on only when not loading |
| Toast.Without | front/editor/src/util/Toast.tsx:25 | `filter(i => i !== x)`: every toast but x, each other toast as often as before |
| Toast.WithoutAppend | front/editor/src/util/Toast.tsx:25 | filtering a concatenation filters both parts, so the toasts kept stay in order |
| Toast.Reduce | front/editor/src/util/Toast.tsx:18-30 | add appends the toast to a copy; remove drops every entry identical to it and keeps the others; any other action leaves the list as it was |
| Toast.AddThenRemove | front/editor/src/util/Toast.tsx:18-38 | a toast added and then removed leaves the list as it was |
| Toast.RemoveKeepsOrder | front/editor/src/util/Toast.tsx:24-26 | removing a toast keeps the others in their order around it |
| Toast.Delay | front/editor/src/util/Toast.tsx:37 | the timeout when it is set and non-zero, otherwise 5000 ms |
| Toast.ListenedToastGoes | front/editor/src/util/Toast.tsx:32-38 | the listener shows a new toast at the end of the list, and after its delay the list is as before |
| WsClient.Fan | front/editor/src/util/ws.ts:19-21 | one line goes to every callback in registration order |
| WsClient.DeliveriesLength | front/editor/src/util/ws.ts:14-23 | every line is delivered once to each callback |
| WsClient.DeliveredAt | front/editor/src/util/ws.ts:14-23 | delivery number i times the number of callbacks plus j is line i to callback j |
| WsClient.DeliveriesOrder | front/editor/src/util/ws.ts:14-23 | deliveries go line by line, and within a line callback by callback |
| WsClient.SplitPieces | front/editor/src/util/ws.ts:15 | a frame with n newlines splits into n + 1 lines, empty ones included |
| WsClient.Ws.constructor | front/editor/src/util/ws.ts:5-8 | no callbacks, and the socket at ws://localhost:9091/ws/ followed by the key |
| WsClient.Ws.Register | front/editor/src/util/ws.ts:26-28 | the callback is added last |
| WsClient.FanOut | front/editor/src/util/ws.ts:16-22 | the nested loop delivers every line, in order, to every callback, in order |
| WsClient.Ws.OnMessage | front/editor/src/util/ws.ts:14-23 | each line of the frame is delivered to every callback in turn |
| WsClient.FrameDeliveries | front/editor/src/util/ws.ts:14-23 | every line of a frame reaches every callback: n newlines give each callback n + 1 calls, in line order |

## Left out

- Networking, HTTP routing, JSON binding, cookies and the websocket upgrade are not modelled. A websocket write or close becomes an abstract action recorded in order, and its failure is a parameter.
- Goroutines and locks are not modelled. Every background job runs to completion, and the hub, the task manager and the handlers are sequential.
- The YAML parser, `os.Expand`, goja/gojsx execution, goldmark rendering, goquery text extraction, gob encoding and the token MD5 are foreign code. Each becomes a function parameter or is kept abstract. The FuseFile attribute record is kept decoded.
- The HTML lexer behind ParseToClose is foreign code. What it reports is a sequence of lexemes, with io.EOF past its end.
- Go byte strings and `[]byte` outside the KV values are Dafny strings whose characters stand for bytes; AsyncTask.Task.Write and EditorJobs.WsSink.Write return the character count as Go's `len(p)`. The UTF-8 byte length is modelled only where the source counts it in a string (GoStrings.Utf8Len).
- FuseFs and KvFs: a Get of the store fails only on a missing key. A read error, which the source answers with ENOENT even for an existing key, and in GetAttr without the retry under `name + "/"`, is not modelled.
- In the Jsx model, characters stand for bytes. The requirement that the block offset lies inside the line is the guarantee goldmark gives. GetJsCode becomes the `code` parameter. reader.Advance is the `advance` field. The JSX renderer is not modelled.
- Clock reads (`time.Now`) become a `now` parameter. One `now` stands for the several reads made by one operation.
- Random keys become a parameter. EditorJobs.HandleTask requires its key to have the handlers' fixed length of 6 characters (StreamKeyLength); which characters it holds is unconstrained.
- The file-tree builders take `deep` as a natural number. The unbounded recursion of a negative depth is not modelled.
- The directory listing inside FileTree is the `Lister` parameter.
- HollowEditor.UploadHandler and HollowEditor.Paths take the upload's parts as a sequence. The source ranges over the multipart `form.File` map, so the processing order is Go's map range order, which the model leaves to the caller.
- BblogHollow.MaskingHidesOnlyValues: its character-for-character alignment holds when every variable's value is ASCII. When a value has non-ASCII characters the mask is longer than the value in characters, and the general statement is BblogHollow.MaskingKeepsBytes: the masked and real texts have the same UTF-8 length.
- Hollow.GetPath: the panic of a script value exporting a non-string is the result None; what a recovering caller would do afterwards is not modelled.
- ReadAll reads with a fixed positive buffer size.
- dbfs is not part of this model. easyfs is modelled over the FuseFs file system with an empty root.
- StatFs of both file systems and the List debug helper of fusefs are not modelled: they only report constants or print.
- sFile.ModTime is not modelled: it reads the clock.
- ContentSort.Sort is modelled on values. It returns the sorted forest, where the source sorts the slice and, through the shared backing arrays of the range loop's copies, every Children slice in place. The theme's JavaScript comparator is the `less` parameter. For ties, the model fixes one order (an insertion sort), where sort.Slice is unstable. ContentSort.SortLevelUnique shows that this choice matters only when `less` leaves two different trees unordered.
- Go slicing beyond a slice's length within its capacity is not modelled. Any offset past the value's length is a panic.
- FuseFile.WriteStepAsWritten: an open value's capacity is taken to be its length, so append overwrites the open value in place exactly when the data fits inside it. A store that hands out values with spare capacity would let more writes land in place.
- In the undo branch of Rename, the store calls that put the old key back and remove the new one are taken to succeed.
- The `hub.GetKeyWrite` call at internal/hollow/editor/editor.go:662 is not modelled. Its caller's job protocol is EditorJobs.
- The CodeMirror view is reduced to its document text and cursor offset. Anchor mapping across changes is not modelled.
- The heading level comes from the menu's keys 1 to 5, so the model requires a level of at least 1.
- The lodash 300 ms throttle in FileEditor is not modelled. `forwarded` records the calls offered to it.
- The timing of the editor view's creation and of React effects is simplified in Editor.Load.
- WithBody with no file leaves the other fields empty, where the source spreads `undefined`.
- The toast listener's setTimeout is not modelled as time. Listen returns the delay, and interleavings of several timers are not modelled.
- The xterm terminal, FitAddon and AttachAddon parts of ProcessModal are not modelled.
- In WsClient, conn.onclose only logs; it and `Row` are not modelled.

## Findings

| source | as written | input that shows it | evidently intended | confidence | as-written member | corrected member |
|---|---|---|---|---|---|---|
| internal/pkg/fusefs/fusefs.go:38-58 | NewFuseFs normalises the root and then calls Mkdir with that root, and Mkdir joins its name onto the root again | root option `a`: Mkdir stores `a/a/`, while OpenDir of `""` looks up `a/` and answers ENOENT | the root directory's own key `a/` is created | not executed | FuseFs.AsWrittenRootKey | FuseFs.MkdirKeyIsOpenDirKey, FuseFs.FuseFS.constructor |
| internal/pkg/fusefs/fusefile.go:143-158 | Write puts `Value[:off] ++ data` in the store, while the open file's value keeps its length: append copies when the data does not fit inside the value, which is always the case for a freshly created empty file, and overwrites the open value in place when it does | two writes on a new file, `a` at offset 0 and then `b` at offset 1: the second slices the empty value at 1 and panics; and an open file holding `hello` written `X` at offset 0 holds `Xello` while the store holds `X` | the open file keeps the value it wrote, so successive writes append | not executed | FuseFile.AsWrittenSecondWritePanics, FuseFile.AsWrittenOverwritesOpenValue | FuseFile.WritesAppend, FuseFile.WriteMeaning, FuseFile.File.Write |
| internal/fs/fs.go:255-270 | Truncate cuts the stored value, 17-byte header included, to the requested size | a file whose content is `abc`, truncated to 2: the stored value is 2 header bytes, and reopening it gives those bytes as content | the content is cut to the size and the header is kept | not executed | KvFs.AsWrittenTruncateLosesContent | KvFs.TruncateKeepsHeader, KvFs.KvFS.Truncate |
| internal/fs/fs.go:101-128 | OpenDir applies the parent-directory check to file keys only | directory `name` holding the keys `name/c/` and `names/`: `c` is listed as `name/c`, and the sibling `names` is listed too | directory keys are listed only for immediate children, by their last element | not executed | KvFs.AsWrittenSubdirectoryName, KvFs.AsWrittenSiblingListed | KvFs.ChildEntryShape, KvFs.ChildEntryKey, KvFs.FilesAgree, KvFs.KvFS.OpenDir |
| internal/fs/fs.go:179-182 | GetAttr reports the stored value's length, header included, as the file's size | a file just created holds a bare 17-byte header: GetAttr reports 17 bytes, while the open file reports 0 | the size is the content's length, as the open file reports | not executed | KvFs.AsWrittenAttrSize | KvFs.AttrOfMatchesFile, KvFs.KvFS.GetAttr |
| internal/pkg/fusefs/fusefs.go:288-296 | Rmdir deletes every key that starts with the bare joined name | root `r/` with the keys `r/a/`, `r/a/x`, `r/ab` and `r/abc/`: Rmdir of `a` also removes the file `r/ab` and the directory `r/abc/` | only the directory's own key and the keys below it are removed | not executed | KvStore.AsWrittenDeleteTakesSiblings | KvStore.DeleteTreeKeepsSiblings, FuseFs.FuseFS.Rmdir |
| internal/fs/fs.go:234-242 | Rmdir deletes every key that starts with the bare joined name, as in the fusefs package | the same keys: Rmdir of `a` also removes `r/ab` and `r/abc/` | only the directory's own key and the keys below it are removed | not executed | KvStore.AsWrittenDeleteTakesSiblings | KvStore.DeleteTreeKeepsSiblings, KvFs.KvFS.Rmdir |
