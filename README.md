# TweetPic staging service, modelled in Dafny

`Ebooks::TweetPic` (lib/twitter_ebooks/tweetpic.rb) is a singleton that stages pictures for
tweets. It keeps a virtual directory of temp files: `file` registers a new name
`"<n><ext>"` under a counter, and `files`, `fetch` and `path` read the registry back.
`get` brings a source in, by `download` for an http(s) URL or by `copy` for a local path.
`edit` hands the staged files to a block and `upload` sends one to Twitter. `delete` runs
a deletion pass over a queue and schedules a retry while anything is left. `process` runs
all of this over a list of sources. It skips the sources that fail, stops once the tweet's
limit of four media is reached (`limit`), and returns the joined media ids.

The model has two layers:

- **Value layer.** The modules `Registry` and `Batch` hold the singleton's state as a value
  (`Registry.Staging`). Each operation is a function from a state to a `Step`, which holds
  the operation's result or exception and the next state. The lemmas about the operations
  live in the same modules. The invariant every reachable state keeps is `Registry.Valid`.
- **Object layer.** The class `TweetPicService.TweetPic` has the instance variables as
  fields. Each operation is an imperative method over those fields, and each method is
  proved to produce exactly the `Step` its function describes. The lemmas of the value
  layer therefore hold of the object. The loops of the source are loops here: the
  `delete_if` pass, the `each` that yields in `edit`, and the `each ... break` in
  `process`.

The supporting modules are:

- `Text`: `downcase`, `Integer#to_s`, and `join` with its inverse.
- `RubyArray`: Ruby's `&`, `|` and `uniq`, and the idiom `x = [x] unless x.is_a? Array`.
- `Filetypes`: the whitelist and `file`'s normalisation.
- `Sources`: the two regular expressions.

The outside world enters as parameters:

- An HTTP `Response`: status code, content-type and body size, or `Unreachable`.
- The size of a local source file, or nil when it cannot be copied.
- The set of `locked` backing paths, whose `File.delete` raises.
- Whether the edit block raises.
- The upload client's media id, or nil when the upload raises.

The model follows the code where the repository's RSpec suite
(spec/pudding_tweetpic_spec.rb) expects something else:

- A virtual name keeps the normalised extension it was given: `file(".JPEG")` gives
  `"<n>.jpeg"`, not `"<n>.jpg"` (tweetpic.rb:117). Only `download` passes a canonical
  extension.
- `file("image/jpeg")` raises FiletypeError. The dot is prepended before the lookup,
  which turns the token into `".image/jpeg"`.
- `delete` never removes a key from the registry. It also sets the queue to
  `(@delete_queue & trash) | files`, an intersection where its comment says merge. So
  every pass attempts every registered name, and a name whose file is already gone stays
  queued, with a retry scheduled, on every later pass.
- `edit` without a block returns at once instead of raising.
- `upload` does not check the file's size.
- `process` returns `{}` for `[]` and for `['']`.

## Model

| member | source | states |
|---|---|---|
| Text.Lower | lib/twitter_ebooks/tweetpic.rb:102 | `downcase!` keeps the length and lower-cases each ASCII letter in place |
| Text.LowerIdempotent | lib/twitter_ebooks/tweetpic.rb:102 | lower-casing an already lower-cased extension changes nothing |
| Text.Decimal | lib/twitter_ebooks/tweetpic.rb:117 | the counter prints as a non-empty string of digits with no leading zero |
| Text.ParseDecimalOfDecimal | lib/twitter_ebooks/tweetpic.rb:117 | reading the printed counter back gives the counter |
| Text.DecimalInjective | lib/twitter_ebooks/tweetpic.rb:117 | different counter values print differently |
| Text.DecimalPrefixUnique | lib/twitter_ebooks/tweetpic.rb:117 | a name `"<n><ext>"` with ext starting with a non-digit determines both n and ext |
| Text.SplitJoin | lib/twitter_ebooks/tweetpic.rb:391 | splitting `ids.join(',')` at ',' gives back the comma-free parts |
| RubyArray.UniqFrom | lib/twitter_ebooks/tweetpic.rb:173-175 | `uniq` is duplicate-free and holds exactly the elements not already seen |
| RubyArray.Select | lib/twitter_ebooks/tweetpic.rb:173 | the elements of `a` kept by `a & b` are exactly those that occur in `b` |
| RubyArray.IntersectMembers | lib/twitter_ebooks/tweetpic.rb:173 | `a & b` is duplicate-free and holds exactly the elements in both |
| RubyArray.UnionMembers | lib/twitter_ebooks/tweetpic.rb:175 | Ruby's union of two arrays is duplicate-free and holds exactly the elements in either |
| RubyArray.UnionKeepsFront | lib/twitter_ebooks/tweetpic.rb:175 | the union of a duplicate-free `a` with anything starts with `a` unchanged |
| RubyArray.Intersect | lib/twitter_ebooks/tweetpic.rb:173 | `a & b`: the elements of `a` that occur in `b`, first occurrences only, in `a`'s order; its properties are stated by IntersectMembers and IntersectKeepsOrder |
| RubyArray.Union | lib/twitter_ebooks/tweetpic.rb:175 | Ruby's union of arrays `a` and `b`: `uniq` of `a` followed by `b`; its properties are stated by UnionMembers and UnionKeepsFront |
| RubyArray.SelectAll | lib/twitter_ebooks/tweetpic.rb:173 | keeping the elements of `a` that occur in `b`, when all of them do, keeps `a` whole and in order |
| RubyArray.IntersectKeepsOrder | lib/twitter_ebooks/tweetpic.rb:173 | `a & b` of a duplicate-free `a` whose elements all occur in `b` is `a` itself, in `a`'s order |
| RubyArray.UniqFromNoDups | lib/twitter_ebooks/tweetpic.rb:175 | `uniq` of a duplicate-free list is that list |
| Filetypes.Normalise | lib/twitter_ebooks/tweetpic.rb:98-102 | the normalised extension starts with '.', and one character is added exactly when the dot was missing |
| Filetypes.CanonicalIsFixed | lib/twitter_ebooks/tweetpic.rb:68-76 | every whitelist token maps to one of .jpg/.png/.gif, which map to themselves |
| Filetypes.NormaliseIdempotent | lib/twitter_ebooks/tweetpic.rb:98-102 | normalising twice is normalising once |
| Filetypes.Accepts | lib/twitter_ebooks/tweetpic.rb:99-105 | the test `file` applies: the normalised extension is in the whitelist; AcceptsExactly states which extensions pass |
| Filetypes.AcceptsExactly | lib/twitter_ebooks/tweetpic.rb:99-105 | `file` accepts exactly jpg, jpeg, png and gif, with or without the dot, in any letter case |
| Filetypes.ContentTypesRejectedByFile | lib/twitter_ebooks/tweetpic.rb:99-105 | the three content-type keys are in the whitelist, yet `file` rejects each of them |
| Sources.IsUrl | lib/twitter_ebooks/tweetpic.rb:265 | `/^https?:\/\//i`: some line of the source starts with `http://` or `https://` in any letter case; IsUrlOneLine reduces it to the first line |
| Sources.IsUrlOneLine | lib/twitter_ebooks/tweetpic.rb:265 | on a one-line source, the URL test is "starts with http:// or https:// in any case" |
| Sources.UrlExamples | lib/twitter_ebooks/tweetpic.rb:265 | `http://...` and `HTTPS://...` are URLs, whatever follows the scheme |
| Sources.UrlAtShape | lib/twitter_ebooks/tweetpic.rb:265 | a URL prefix starts with `h` or `H` and holds a colon |
| Sources.PathIsNotUrl | lib/twitter_ebooks/tweetpic.rb:265 | a one-line source without a colon (any relative or absolute file path), or one not starting with `h`/`H`, is not a URL |
| Sources.WordRunEnd | lib/twitter_ebooks/tweetpic.rb:246 | `\w+` extends to the first non-word character |
| Sources.FirstExtension | lib/twitter_ebooks/tweetpic.rb:246 | the leftmost position where `(\.\w+)$` matches, or none when it matches nowhere |
| Sources.CopyExtension | lib/twitter_ebooks/tweetpic.rb:246-248 | `$1` is a dot followed by word characters, and is nil exactly when the regex matches nowhere |
| Sources.ExtensionOfPath | lib/twitter_ebooks/tweetpic.rb:246-248 | a one-line path ending in `.<word>` yields exactly that final `.<word>` |
| Sources.NoDotNoExtension | lib/twitter_ebooks/tweetpic.rb:246-248 | a source without a dot yields nil |
| Registry.Files | lib/twitter_ebooks/tweetpic.rb:126-132 | `files`: `[]` before the hash exists, else the registered names in registration order; FilesCountCreations and InitialValid state its properties |
| Registry.Fetch | lib/twitter_ebooks/tweetpic.rb:138-142 | `fetch`: NoMethodError before the hash exists, NoSuchFileError for an unregistered name, else the stored file; FetchPathAgree states its properties |
| Registry.PathOf | lib/twitter_ebooks/tweetpic.rb:149-151 | `path`: the stored file's backing path, or `fetch`'s exception; FetchPathAgree states its properties |
| Registry.DeleteQueue | lib/twitter_ebooks/tweetpic.rb:170-175 | the names a `delete` pass attempts, `@delete_queue & trash` united with `files`; DeleteAttemptsEveryName states what it holds |
| Registry.Delete | lib/twitter_ebooks/tweetpic.rb:164-198 | `delete(trash)`: one sweep over that queue, storing the names left and adding a retry when any are; DeleteValid, DeleteKeepsKeys, DeleteQueueOutcome, DeleteDiskOutcome and DeleteNeverDrains state its properties |
| Registry.FireRetry | lib/twitter_ebooks/tweetpic.rb:190-195 | a scheduled retry firing: one fewer pending, then an argument-less `delete`; DeleteNeverDrains follows it |
| Registry.Download | lib/twitter_ebooks/tweetpic.rb:206-238 | `download(url)` over the HTTP response; DownloadValid, DownloadOutcome and Batch.DownloadMatchesFetched state its properties |
| Registry.Receive | lib/twitter_ebooks/tweetpic.rb:219-237 | the part of `download` after the status and type checks; ReceiveValid and ReceiveOutcome state its properties |
| Registry.Copy | lib/twitter_ebooks/tweetpic.rb:244-257 | `copy(source)`: `file` on the regex's extension, then the source's bytes; CopyValid, CopyOutcome and CopyWithoutExtension state its properties |
| Registry.Get | lib/twitter_ebooks/tweetpic.rb:263-270 | `get(source)`: the URL test picks `download` or `copy`; GetDispatch and GetValid state its properties |
| Registry.Edit | lib/twitter_ebooks/tweetpic.rb:276-293 | `edit(list, &block)`; EditOutcome states its properties |
| Registry.Upload | lib/twitter_ebooks/tweetpic.rb:299-310 | `upload(name)`; UploadOutcome states its properties |
| Registry.File | lib/twitter_ebooks/tweetpic.rb:92-121 | a successful `file` returns a registered name backed by a new file at counter+1 with the normalised extension, present on disk |
| Registry.Register | lib/twitter_ebooks/tweetpic.rb:107-120 | the accepted branch always succeeds, and registers the name with its new backing file on disk |
| Registry.InitialValid | lib/twitter_ebooks/tweetpic.rb:126-132 | before any call the state is valid and `files` is `[]` |
| Registry.NamesDiffer | lib/twitter_ebooks/tweetpic.rb:117 | names made with different counter values differ |
| Registry.SerialsBounded | lib/twitter_ebooks/tweetpic.rb:108-118 | every registered name holds a counter value between 1 and the counter, at its own position in `files` |
| Registry.NextNameFresh | lib/twitter_ebooks/tweetpic.rb:108-118 | the name `file` is about to register is not registered yet |
| Registry.PathsDistinct | lib/twitter_ebooks/tweetpic.rb:114-118 | distinct registered names have distinct backing files |
| Registry.FilesCountCreations | lib/twitter_ebooks/tweetpic.rb:126-132 | `files` is duplicate-free, as long as the number of successful `file` calls, and holds exactly the keys |
| Registry.RegisterNames | lib/twitter_ebooks/tweetpic.rb:107-120 | after registering, the n-th name still holds counter value n |
| Registry.RegisterDisk | lib/twitter_ebooks/tweetpic.rb:113-118 | after registering, every file on disk still belongs to the name holding its counter value |
| Registry.RegisterValid | lib/twitter_ebooks/tweetpic.rb:107-120 | registering keeps the state valid |
| Registry.FileValid | lib/twitter_ebooks/tweetpic.rb:92-121 | `file` keeps the state valid, whether it succeeds or raises |
| Registry.FileOutcome | lib/twitter_ebooks/tweetpic.rb:92-121 | `file` succeeds iff the extension is accepted. On rejection: FiletypeError, and counter, hash, disk and `files` unchanged. On success: counter+1, the name `"<counter+1><normalised ext>"` returned, fresh and appended to `files`, and every other entry unchanged |
| Registry.FetchPathAgree | lib/twitter_ebooks/tweetpic.rb:138-151 | `fetch` raises NoSuchFileError exactly for names not in `files`, and `path` is the stored file's path |
| Registry.Sweep | lib/twitter_ebooks/tweetpic.rb:178-188 | the pass keeps only queued names, keeps a duplicate-free queue duplicate-free, and never adds files to disk |
| Registry.SweepEffect | lib/twitter_ebooks/tweetpic.rb:178-188 | the pass keeps exactly the names not removable at its start, and removes exactly the unlocked files of the queued names |
| Registry.SweepKept | lib/twitter_ebooks/tweetpic.rb:178-188 | the names the pass keeps are exactly those whose removal fails |
| Registry.SweepDisk | lib/twitter_ebooks/tweetpic.rb:178-188 | the pass removes from disk exactly the unlocked files of the queued registered names |
| Registry.DeleteAttemptsEveryName | lib/twitter_ebooks/tweetpic.rb:170-175 | whatever the argument, the union of `queue & trash` with `files` holds each registered name exactly once |
| Registry.DeleteValid | lib/twitter_ebooks/tweetpic.rb:164-198 | `delete` keeps the state valid |
| Registry.DeleteKeepsKeys | lib/twitter_ebooks/tweetpic.rb:164-198 | `delete` never changes the registry: hash, names, counter and `files` are as before |
| Registry.DeleteQueueOutcome | lib/twitter_ebooks/tweetpic.rb:164-198 | the returned queue is the stored queue. It is duplicate-free, registered, and holds exactly the names whose removal failed. A retry is scheduled iff it is non-empty |
| Registry.DeleteDiskOutcome | lib/twitter_ebooks/tweetpic.rb:164-198 | after a pass, exactly the locked backing files remain, with their sizes |
| Registry.DeleteNeverDrains | lib/twitter_ebooks/tweetpic.rb:178-195 | a registered name whose file is gone is kept by every later pass, which schedules another retry |
| Registry.ResizeValid | lib/twitter_ebooks/tweetpic.rb:225-229 | writing a body into a file already on disk keeps the state valid |
| Registry.ReceiveValid | lib/twitter_ebooks/tweetpic.rb:219-234 | receiving a body keeps the state valid |
| Registry.DownloadValid | lib/twitter_ebooks/tweetpic.rb:206-238 | `download` keeps the state valid |
| Registry.CopyValid | lib/twitter_ebooks/tweetpic.rb:244-257 | `copy` keeps the state valid |
| Registry.GetValid | lib/twitter_ebooks/tweetpic.rb:263-270 | `get` keeps the state valid |
| Registry.DownloadOutcome | lib/twitter_ebooks/tweetpic.rb:206-238 | a status other than "200" raises HTTPResponseError, and a content-type that is not exactly a key raises FiletypeError, both with the state unchanged. Otherwise `"<counter+1><canonical ext>"` is registered holding the body; an empty body raises EmptyFileError and the entry stays |
| Registry.ReceiveOutcome | lib/twitter_ebooks/tweetpic.rb:219-237 | a body received under an accepted extension registers the next name holding that many bytes; EmptyFileError iff it is empty |
| Registry.CopyOutcome | lib/twitter_ebooks/tweetpic.rb:244-257 | `copy` raises FiletypeError, registering nothing, iff the regex's extension (or "") is not accepted. Otherwise it appends one name, which holds the source's bytes when the source is readable, an empty source included |
| Registry.GetDispatch | lib/twitter_ebooks/tweetpic.rb:263-270 | on any one-line source, `get` is `download` exactly when the source starts with `http://` or `https://` in any letter case, and `copy` otherwise; a source without a colon is always copied |
| Registry.CopyWithoutExtension | lib/twitter_ebooks/tweetpic.rb:246-251 | any source the extension regex does not match (no dot, or a dot not followed by word characters up to the line end) raises FiletypeError, because nil becomes ".", with only the empty hash staged |
| Registry.Yields | lib/twitter_ebooks/tweetpic.rb:289-292 | when no lookup raises, one path is yielded per name, in order, each being that name's `path` |
| Registry.EditOutcome | lib/twitter_ebooks/tweetpic.rb:276-293 | without a block, `edit` does nothing. With one, it raises NoSuchFileError iff no argument is registered, and otherwise yields the paths of the registered arguments, in argument order, without repeats |
| Registry.YieldsRegistered | lib/twitter_ebooks/tweetpic.rb:289-292 | yielding registered names never raises |
| Registry.UploadOutcome | lib/twitter_ebooks/tweetpic.rb:299-310 | `upload` raises NoSuchFileError for an unregistered name and returns the client's id for a present file, even an empty one |
| Batch.Attempt | lib/twitter_ebooks/tweetpic.rb:361-377 | the rescued loop body on one source: `get`, then `edit` and `upload` of the staged name; AttemptMatchesOutcome, AttemptKeeps and AttemptForesees state its properties |
| Batch.Finish | lib/twitter_ebooks/tweetpic.rb:366-373 | the loop body after `get`: `edit([name])` then `upload`; FinishOutcome states its properties |
| Batch.Loop | lib/twitter_ebooks/tweetpic.rb:356-378 | the `each ... break` over the sources, collecting ids and sources; LoopValid, LoopIsChain and LoopIsRun state its properties |
| Batch.Trim | lib/twitter_ebooks/tweetpic.rb:383-384 | `xs[0...4]` unless `limit(xs)` is negative; RespondOutcome shows it never cuts |
| Batch.Process | lib/twitter_ebooks/tweetpic.rb:344-392 | `process(bot, pic_list, upload_options, &block)`; ProcessOutcome states its properties |
| Batch.Respond | lib/twitter_ebooks/tweetpic.rb:380-391 | the end of `process`: raise on no ids, else trim, log and join; RespondOutcome states its properties |
| Batch.Limit | lib/twitter_ebooks/tweetpic.rb:319-335 | `limit()` is 4 and `limit(xs)` is the length of xs minus 4, negative iff xs has fewer than 4 elements. ArgumentError iff there are two or more arguments, or one without a length |
| Batch.Decimals | lib/twitter_ebooks/tweetpic.rb:391 | each id is printed in its own place as a non-empty, comma-free string of digits that reads back as that id |
| Batch.MediaIdsReadBack | lib/twitter_ebooks/tweetpic.rb:391 | the `:media_ids` string splits at its commas into one decimal per id, in order, each reading back as that id |
| Batch.GetMatchesFetched | lib/twitter_ebooks/tweetpic.rb:263-270 | `get` stages a source iff the outside world allows it (status 200, a whitelisted type, a non-empty body; or an accepted extension and a readable file), whatever the valid state |
| Batch.DownloadMatchesFetched | lib/twitter_ebooks/tweetpic.rb:206-238 | a download stages its name iff status is "200", the type is whitelisted and the body is non-empty |
| Batch.CopyMatchesFetched | lib/twitter_ebooks/tweetpic.rb:244-257 | a copy stages its name iff the extension is accepted and the source can be read |
| Batch.EditStaged | lib/twitter_ebooks/tweetpic.rb:367 | `edit([name])` on a staged name never raises, and yields iff there is a block |
| Batch.UploadStaged | lib/twitter_ebooks/tweetpic.rb:369 | uploading a staged name gives the client's answer |
| Batch.FinishOutcome | lib/twitter_ebooks/tweetpic.rb:366-373 | once staged, a source succeeds iff the block does not raise and the client answers, with the client's id |
| Batch.AttemptMatchesOutcome | lib/twitter_ebooks/tweetpic.rb:361-377 | one pass of the rescued body succeeds iff the outside world lets that source through, with the same id, and keeps the state valid |
| Batch.AttemptKeeps | lib/twitter_ebooks/tweetpic.rb:361-377 | the rescued body keeps the state valid on any source |
| Batch.AttemptForesees | lib/twitter_ebooks/tweetpic.rb:361-377 | the rescued body comes out on every source as the reference predicts |
| Batch.Run | lib/twitter_ebooks/tweetpic.rb:356-378 | the loop over known outcomes ends between the source it starts at and the end of the list |
| Batch.ChainValid | lib/twitter_ebooks/tweetpic.rb:356-377 | running a validity-keeping body over a range of sources keeps the state valid |
| Batch.LoopIsChain | lib/twitter_ebooks/tweetpic.rb:356-378 | the loop ends in the state its attempts lead to, one after the other |
| Batch.LoopValid | lib/twitter_ebooks/tweetpic.rb:356-378 | the loop keeps the state valid |
| Batch.PredictedAgrees | lib/twitter_ebooks/tweetpic.rb:356-378 | from a valid state, every attempt the loop makes comes out as predicted |
| Batch.LoopIsRun | lib/twitter_ebooks/tweetpic.rb:356-378 | the loop over the registry collects the same ids and sources, and stops at the same place, as the loop over the predicted outcomes |
| Batch.RunCollects | lib/twitter_ebooks/tweetpic.rb:356-378 | the loop collects, in input order, the successes among the sources it attempts |
| Batch.RunStopsAtLimit | lib/twitter_ebooks/tweetpic.rb:357-358 | if the loop stops before the last source, exactly 4 sources have succeeded |
| Batch.RunStopsNoEarlier | lib/twitter_ebooks/tweetpic.rb:357-358 | the loop never stops before the source that brings the successes to 4 |
| Batch.RunFromStart | lib/twitter_ebooks/tweetpic.rb:352-378 | the loop collects the first (at most 4) successes in input order, with equally long id and source lists, and stops after the last source or right after the fourth success |
| Batch.StopsAtLimit | lib/twitter_ebooks/tweetpic.rb:356-384 | where the loop stops it holds exactly the first 4 successes (or all of them) |
| Batch.ProcessOutcome | lib/twitter_ebooks/tweetpic.rb:344-392 | `[]` and `['']` give `{}` with nothing touched. Otherwise NoUploadedFilesError iff no source succeeds; else the ids of the first 1 to 4 successes, joined with ',' so that splitting gives them back, and their sources logged joined with ' '. The state stays valid |
| Batch.RespondOutcome | lib/twitter_ebooks/tweetpic.rb:380-391 | the end of `process` raises iff nothing succeeded; the trim never cuts, and the join splits back into the ids |
| Batch.FirstFourSucceed | lib/twitter_ebooks/tweetpic.rb:356-378 | when the first four sources succeed, exactly those four are attempted and uploaded, however many follow |
| Batch.RunFirstFour | lib/twitter_ebooks/tweetpic.rb:356-378 | on known outcomes, four leading successes stop the loop after the fourth source |
| TweetPicService.YieldsStep | lib/twitter_ebooks/tweetpic.rb:290-292 | one step of `edit`'s `each`: the next name yields its path or raises |
| TweetPicService.YieldsEnds | lib/twitter_ebooks/tweetpic.rb:290-292 | `edit`'s `each` starts with nothing yielded and ends with nothing left |
| TweetPicService.SweepStep | lib/twitter_ebooks/tweetpic.rb:178-188 | one step of `delete_if`: the name is removed, or kept ahead of the rest |
| TweetPicService.SweepEnds | lib/twitter_ebooks/tweetpic.rb:178-188 | `delete_if` starts with nothing kept and ends with nothing left |
| TweetPicService.TweetPic.constructor | lib/twitter_ebooks/tweetpic.rb:126-132 | no instance variable is set before the first call, and that state is valid |
| TweetPicService.TweetPic.File | lib/twitter_ebooks/tweetpic.rb:92-121 | updates the fields exactly as `Registry.File` says |
| TweetPicService.TweetPic.Delete | lib/twitter_ebooks/tweetpic.rb:164-198 | updates the disk, queue and retry count exactly as `Registry.Delete` says, and returns the queue |
| TweetPicService.TweetPic.SweepAll | lib/twitter_ebooks/tweetpic.rb:177-188 | the `delete_if` loop keeps and removes exactly what `Registry.Sweep` says |
| TweetPicService.TweetPic.FireRetry | lib/twitter_ebooks/tweetpic.rb:190-195 | a scheduled retry runs one argument-less `delete` |
| TweetPicService.TweetPic.Download | lib/twitter_ebooks/tweetpic.rb:206-238 | updates the fields exactly as `Registry.Download` says |
| TweetPicService.TweetPic.Receive | lib/twitter_ebooks/tweetpic.rb:219-237 | updates the fields exactly as `Registry.Receive` says |
| TweetPicService.TweetPic.Copy | lib/twitter_ebooks/tweetpic.rb:244-257 | updates the fields exactly as `Registry.Copy` says |
| TweetPicService.TweetPic.Get | lib/twitter_ebooks/tweetpic.rb:263-270 | updates the fields exactly as `Registry.Get` says |
| TweetPicService.TweetPic.Edit | lib/twitter_ebooks/tweetpic.rb:276-293 | yields exactly what `Registry.Edit` says |
| TweetPicService.TweetPic.PathsOf | lib/twitter_ebooks/tweetpic.rb:289-292 | the `each` loop yields exactly `Registry.Yields`, stopping at the first lookup that raises |
| TweetPicService.TweetPic.Upload | lib/twitter_ebooks/tweetpic.rb:299-310 | answers exactly as `Registry.Upload` says |
| TweetPicService.TweetPic.Attempt | lib/twitter_ebooks/tweetpic.rb:361-377 | the rescued body updates the fields exactly as `Batch.Attempt` says |
| TweetPicService.TweetPic.Process | lib/twitter_ebooks/tweetpic.rb:344-392 | the `each ... break` loop and its end update the fields and answer exactly as `Batch.Process` says |
| TweetPicService.TweetPic.Respond | lib/twitter_ebooks/tweetpic.rb:380-391 | the trim, log and join answer exactly as `Batch.Respond` says |

## Left out

- The HTTP exchange (tweetpic.rb:208-231) is a `Response` parameter: status, content-type
  and body size, or `Unreachable` for a malformed URI or a connection failure. That https
  is opened without SSL is not modelled.
- Tempfile, FileUtils and File I/O (tweetpic.rb:114, 225-229, 233, 254, 303-307) are
  modelled as a map from backing path to byte size. A failed `Tempfile.create` and
  partial writes are not modelled.
- The backing path keeps only the counter value and the extension. The directory, the
  `Time.now.to_f` prefix (tweetpic.rb:111) and Tempfile's random part are left out: they
  involve a clock and float formatting, and do not affect virtual names.
- The rufus scheduler (tweetpic.rb:156-158, 192-194) is a count of pending retries, and
  firing one is the `FireRetry` operation. Timing and concurrency with other calls are not
  modelled.
- The upload client (tweetpic.rb:305) is a parameter giving a media id, or nil when it
  raises. `bot_object.log` (tweetpic.rb:388) is modelled as the log line returned with the
  reply.
- The edit block is a parameter saying whether it raises. What it does to the file is not
  modelled: the model assumes it neither deletes, moves nor truncates the backing file and
  does not call back into `TweetPic`. A block that deletes the backing file makes
  `upload`'s `File.open` (tweetpic.rb:303) raise; the model says the upload succeeds.
- Batch.FinishOutcome: its success case holds only for an edit block that leaves the
  backing file in place, as above.
- Batch.AttemptMatchesOutcome: its success case holds only for an edit block that leaves
  the backing file in place, as above.
- Exception messages are not modelled, only the exception class. Exceptions raised
  outside the core (I/O, network, the client, the block) are one `ExternalError`. The
  `rescue` in `process` and `delete` catches StandardError only; exceptions outside
  StandardError are not modelled.
- `downcase!` and the `/i` flag fold ASCII letters only, and `\w` is ASCII. Unicode case
  folding is not modelled.
- `file` mutating its argument string in place (`prepend`, `downcase!`) is not visible to
  the caller in the model.
- `pic_list` elements are nil or a string. Other objects enter only through their
  `to_s` text.
- The argument of `limit` is reduced to its length, or to having no `length` method.
- The `Ebooks::Bot` wrappers `pic_tweet`, `pic_reply` and `if_has_pic_reply`
  (tweetpic.rb:18-58) call the bot's own `tweet` and `reply`, which are not part of this
  model.
- TweetPicService.TweetPic methods neither require nor ensure the class's `Valid()`. Each
  method is proved equal to its `Registry` or `Batch` function, and the validity lemmas are
  proved about those functions.
