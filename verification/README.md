# Auto-captioning and renaming of an image folder, in Dafny

This project models `yuv_ai_auto_captioning_llava_llama.py`, a script that works on one flat
folder of images in two stages:

1. **Captioning.** It lists the folder and keeps the files whose lower-cased name ends in an
   allowed image extension. It asks a vision model for a caption of each image and collects the
   captions in a dictionary keyed by basename. For each entry it writes `<stem>.txt`.
2. **Renaming.** It scans a snapshot of the listing for `.txt` files. Each one is paired with an
   image of the same base name, compared case-insensitively, trying the allowed extensions in
   order. It asks a text model for a 2-3 word summary and refines that into a label:
   - stop words dropped;
   - the first three remaining words kept (fewer if fewer remain) and joined with `_`;
   - characters other than `[A-Za-z0-9_-]` removed;
   - cut to 15 characters.

   It then makes the label unique against the labels assigned earlier in the run, using `_1`,
   `_2`, … suffixes. Finally it renames the image and the text file to that label.

Everything is pure. The two model servers are oracles:
- `respond` maps an image path to a `Response`;
- `summarise` maps a text file name to a `Response`.

A `Response` is a status code plus the optional JSON `response` field. The directory listing is
an `Option<seq<string>>`, where `None` means the folder does not exist. Stage 2 yields the
sequence of planned renames rather than performing them.

Modules, in dependency order:
- `Wrappers`: `Option` and `Result`.
- `Seqs`: filter and take.
- `Text`: Python's `str.split`, `lower`, `join`, `str(int)`.
- `Paths`: `posixpath.join`, `basename`, `splitext`.
- `Inference`: how a response becomes a caption or a summary.
- `Discovery`: `list_image_files`.
- `Captions`: `generate_image_captions`, `save_captions_to_text`.
- `Refiner`: `refine_caption` plus the sanitiser.
- `Resolver`: the uniqueness loop.
- `Renamer`: the stage 2 pass.
- `Pipeline`: how stage 1's output feeds stage 2.

Three consequences of the code are worth stating:

- The summary `dog running fast` refines to the 16-character `dog_running_fast`, which the
  15-character cut makes `dog_running_fas` (`Refiner.TruncationExample`).
- The `_k` uniqueness suffix is added after the cut, so a resolved name can be longer than 15
  characters (`Resolver.ResolvedMayExceedLimit`).
- The name set only holds the labels assigned earlier in the same run. Renames within one run
  never share a target (`Renamer.TargetsDistinct`), but a rename can land on a file that was
  already in the folder and was not part of the run.

## Model

| member | source | states |
|---|---|---|
| Discovery.ListImageFiles | yuv_ai_auto_captioning_llava_llama.py:15-25 | A missing folder, and only a missing folder, gives the error value instead of a list. Otherwise a slash-free name is returned, joined onto the folder, exactly when the listing has it and its lower-cased form ends in an allowed extension. There are never more results than listing entries. |
| Discovery.IsImageName | yuv_ai_auto_captioning_llava_llama.py:20 | A name that passes the extension test has at least four characters, the length of the shortest allowed extension. |
| Discovery.ImageNameIgnoresCase | yuv_ai_auto_captioning_llava_llama.py:20 | The extension test ignores case: a name passes exactly when its lower-cased form passes. |
| Discovery.DiscoveredMembership | yuv_ai_auto_captioning_llava_llama.py:19-22 | For a slash-free listing and slash-free names, joining onto the folder keeps exactly the names that pass the test. |
| Discovery.DiscoveryIsExact | yuv_ai_auto_captioning_llava_llama.py:19-23 | Discovery keeps listing order. A listing split in two is discovered part by part. A single entry yields its joined path exactly when it is an image name. |
| Inference.CaptionOf | yuv_ai_auto_captioning_llava_llama.py:58-62 | A non-200 status gives "Failed to generate caption". A 200 gives the `response` field, or "No caption generated" when the field is missing. |
| Inference.SummaryOf | yuv_ai_auto_captioning_llava_llama.py:125-128 | There is no summary exactly when the status is not 200. A 200 gives the field, or "caption" when it is missing. |
| Captions.Put | yuv_ai_auto_captioning_llava_llama.py:60 | Dictionary assignment: the key now maps to the new value and no other key changes. A new key is appended last. An existing key keeps its position. |
| Captions.PutDistinct | yuv_ai_auto_captioning_llava_llama.py:60 | Assignment keeps the dictionary's keys distinct. |
| Captions.LookupKeys | yuv_ai_auto_captioning_llava_llama.py:60 | A key is found exactly when some entry carries it. |
| Captions.BuildDict | yuv_ai_auto_captioning_llava_llama.py:46-62 | The dictionary built by assigning entries one after the other has distinct keys, exactly the keys of the entries. |
| Captions.BuildDictLastWins | yuv_ai_auto_captioning_llava_llama.py:48-62 | Each key maps to the value of its last assignment. The reference for "last" is defined independently of the dictionary. |
| Captions.BuildDictInOrder | yuv_ai_auto_captioning_llava_llama.py:46-64 | Entries with distinct keys come out unchanged and in order. |
| Captions.GenerateCaptions | yuv_ai_auto_captioning_llava_llama.py:37-64 | The caption dictionary has distinct keys, and they are exactly the basenames of the image paths. |
| Captions.CaptionsInOrder | yuv_ai_auto_captioning_llava_llama.py:48-62 | When the basenames are distinct, the dictionary has one entry per image, in order. Each entry is that image's basename and the caption of that image's response. |
| Captions.TextFileName | yuv_ai_auto_captioning_llava_llama.py:68-69 | A caption file name always ends in `.txt`. |
| Captions.Stage1Writes | yuv_ai_auto_captioning_llava_llama.py:66-74 | Take a listing of distinct plain names. Stage 1 writes one file per discovered image, in listing order. The file is `<folder>/<stem>.txt` and holds that image's caption, which is the failure text when the model answered with an error. |
| Captions.SaveCaptions | yuv_ai_auto_captioning_llava_llama.py:66-74 | One write per dictionary entry, holding that entry's caption. For slash-free keys the file is named `<stem>.txt`, and two entries write to the same path exactly when their keys have the same `splitext` stem, so the later write replaces the earlier one. |
| Captions.SamePathSameStem | yuv_ai_auto_captioning_llava_llama.py:68-70 | Two slash-free image names get the same caption file path in a folder exactly when their `splitext` stems agree. |
| Refiner.RefineTokens | yuv_ai_auto_captioning_llava_llama.py:83-84 | For every caption, the kept tokens are the first three of its `str.split()` words that are not stop words, in order, or all of them when fewer than three remain. Each is a whitespace-free word. |
| Refiner.RefineCaption | yuv_ai_auto_captioning_llava_llama.py:83-85 | The refined caption has no whitespace, and it is empty exactly when no token survives. |
| Refiner.RefineWordwise | yuv_ai_auto_captioning_llava_llama.py:84 | For words joined by single spaces, the kept tokens are the first three non-stop-words of that word list. |
| Refiner.RefineIgnoresTail | yuv_ai_auto_captioning_llava_llama.py:84 | Once three non-stop-words have appeared, anything after them does not change the result. |
| Refiner.RefineContentWords | yuv_ai_auto_captioning_llava_llama.py:83-85 | At most three words, none a stop word, refine to those words joined by `_`. |
| Refiner.LowerStopWordExample | yuv_ai_auto_captioning_llava_llama.py:83-84 | `a dog` refines to `dog`. |
| Refiner.UpperStopWordExample | yuv_ai_auto_captioning_llava_llama.py:83-84 | `A dog` refines to `A_dog`: stop words match case-sensitively. |
| Refiner.AllStopWordsExample | yuv_ai_auto_captioning_llava_llama.py:83-85 | A caption of stop words only refines to the empty label. |
| Refiner.ThreeWordsExample | yuv_ai_auto_captioning_llava_llama.py:84-85 | `dog running fast` refines to `dog_running_fast`. |
| Refiner.Sanitize | yuv_ai_auto_captioning_llava_llama.py:130 | The result has at most 15 characters, all of them label characters. It is a prefix of the filtered string, and it is either 15 long or the whole filtered string. |
| Refiner.SanitizeFixpoints | yuv_ai_auto_captioning_llava_llama.py:130 | The sanitiser leaves a string alone exactly when it is short and clean. Sanitising twice is the same as sanitising once. |
| Refiner.ShortLabel | yuv_ai_auto_captioning_llava_llama.py:129-130 | The label has at most 15 characters, all from `[A-Za-z0-9_-]`. It is a prefix of the cleaned refined caption. |
| Refiner.TruncationExample | yuv_ai_auto_captioning_llava_llama.py:129-130 | The summary `dog running fast` gives the label `dog_running_fas`. |
| Resolver.CandidateInjective | yuv_ai_auto_captioning_llava_llama.py:132-136 | Different attempts `short`, `short_1`, `short_2`, … are different names. |
| Resolver.CandidatesBound | yuv_ai_auto_captioning_llava_llama.py:134-136 | If the first `n` attempts are all taken, the set holds at least `n` names, so the search ends. |
| Resolver.FirstFreeFrom | yuv_ai_auto_captioning_llava_llama.py:132-136 | The search returns the first free attempt, and its index is at most the size of the set. |
| Resolver.ResolveName | yuv_ai_auto_captioning_llava_llama.py:132-136 | The resolved name is not in the set. It is the label when the label is free. Otherwise it is `label_k` for the smallest `k >= 1` whose name is free, and `k` is at most the size of the set. |
| Resolver.ResolvedChars | yuv_ai_auto_captioning_llava_llama.py:130-136 | Resolving a label made of label characters gives a name made of label characters. |
| Resolver.Resolve | yuv_ai_auto_captioning_llava_llama.py:132-137 | The source's loop, with counter and set. It ends with the resolved name, which is new, and the set grows by that name only. |
| Resolver.DuplicateLabelExample | yuv_ai_auto_captioning_llava_llama.py:132-137 | A label resolves to itself in an empty set, and to `label_1` once the label is taken. |
| Resolver.ResolvedMayExceedLimit | yuv_ai_auto_captioning_llava_llama.py:130-136 | A taken 15-character label resolves to a 17-character name. |
| Renamer.FirstNamedFrom | yuv_ai_auto_captioning_llava_llama.py:108-110 | Finds the first listing entry whose lower-cased name is the target, or reports that there is none. |
| Renamer.FindImageFrom | yuv_ai_auto_captioning_llava_llama.py:106-111 | Scans the extensions in allow-list order. The first extension that any entry matches is used, with the first entry that matches it. No earlier extension matches anything. |
| Renamer.TextBase | yuv_ai_auto_captioning_llava_llama.py:104 | Cutting four characters off a `.txt` name gives the base that `.txt` completes back to the name. |
| Renamer.FindImage | yuv_ai_auto_captioning_llava_llama.py:104-111 | An image is paired exactly when some allowed extension matches an entry case-insensitively. The paired image is an entry of the snapshot. |
| Renamer.PlanOne | yuv_ai_auto_captioning_llava_llama.py:102-144 | An entry plans nothing exactly when it is not a `.txt` file, has no paired image, or gets a failed summary. Otherwise both files are renamed to the resolved label, and the label is new to the set. |
| Renamer.Pass | yuv_ai_auto_captioning_llava_llama.py:102-146 | The loop plans at most one rename per entry. |
| Renamer.PassDistinct | yuv_ai_auto_captioning_llava_llama.py:97-137 | Over one pass, the assigned labels are pairwise distinct and new to the starting set. The set ends as the starting set plus exactly those labels. This holds whatever the summariser answers. |
| Renamer.PassAppend | yuv_ai_auto_captioning_llava_llama.py:102-103 | Running the pass over two consecutive stretches, handing the set from one to the next, is running it over their concatenation. |
| Renamer.PassAll | yuv_ai_auto_captioning_llava_llama.py:102-146 | A property that every single plan has is shared by every rename of the pass. |
| Renamer.RenamePass | yuv_ai_auto_captioning_llava_llama.py:97-146 | The whole pass plans at most one rename per snapshot entry. No label is used twice. Each label is made of label characters and renames both the image and its text file. |
| Renamer.TargetsDistinct | yuv_ai_auto_captioning_llava_llama.py:139-143 | No two planned renames share a target: no two new image paths are equal, no two new text paths are equal, and no rename's new image path is another rename's new text path. |
| Renamer.ImageNotOtherText | yuv_ai_auto_captioning_llava_llama.py:139-140 | The new image path of a rename is never the new text path of a rename to another label. |
| Renamer.DistinctStemsDistinctTargets | yuv_ai_auto_captioning_llava_llama.py:139-140 | Renames to different labels never share a target. |
| Renamer.LabelExtInjective | yuv_ai_auto_captioning_llava_llama.py:139 | A dot-free label followed by an extension determines the label. |
| Renamer.RenamedPairShareStem | yuv_ai_auto_captioning_llava_llama.py:139-140 | After a rename to a non-empty label, the image and the text file have the label as their `splitext` stem. The image keeps its extension and the text file keeps `.txt`. |
| Renamer.EmptyLabelLosesPair | yuv_ai_auto_captioning_llava_llama.py:139-140 | With an empty label the text file becomes `.txt`, whose stem is `.txt` itself. |
| Paths.SplitExt | yuv_ai_auto_captioning_llava_llama.py:68 | Stem and extension concatenate back to the path. The extension is empty, or a dot followed by no dot and no slash. |
| Paths.SplitExtOfPlain | yuv_ai_auto_captioning_llava_llama.py:68 | A non-empty dot-free stem followed by an extension splits back into the two. |
| Paths.SplitExtOfDotName | yuv_ai_auto_captioning_llava_llama.py:68 | A name made of one leading dot and no other dot has no extension. |
| Paths.BasenameOfJoin | yuv_ai_auto_captioning_llava_llama.py:60 | The basename of a slash-free name joined onto a folder is that name. |
| Paths.JoinInjective | yuv_ai_auto_captioning_llava_llama.py:21 | Within one folder, relative names are joined injectively. |
| Paths.JoinShape | yuv_ai_auto_captioning_llava_llama.py:21 | `os.path.join`: an absolute name replaces the directory. Otherwise the result is the directory, at most one inserted `/`, then the name, and the name is preceded by `/` unless it is the whole result. |
| Paths.BasenameShape | yuv_ai_auto_captioning_llava_llama.py:60 | `os.path.basename` is a slash-free suffix of the path that is either the whole path or starts right after a `/`. |
| Text.LowerCases | yuv_ai_auto_captioning_llava_llama.py:20 | Lower-casing leaves no upper-case ASCII letter. It maps each upper-case letter to its lower-case partner and keeps every other character. |
| Text.LowerIdempotent | yuv_ai_auto_captioning_llava_llama.py:108 | Lower-casing twice is lower-casing once. |
| Text.JoinWithEnds | yuv_ai_auto_captioning_llava_llama.py:85 | `sep.join` starts with the first part, followed by the separator when there is a second part, and ends with the last part. |
| Text.JoinWithChars | yuv_ai_auto_captioning_llava_llama.py:85 | Every character of a join comes from one of the parts or from the separator. |
| Text.Split | yuv_ai_auto_captioning_llava_llama.py:84 | Every token of `str.split()` is non-empty and free of whitespace. |
| Text.SplitJoin | yuv_ai_auto_captioning_llava_llama.py:84 | Splitting words joined by single spaces gives back the words. |
| Text.SplitAround | yuv_ai_auto_captioning_llava_llama.py:84 | Splitting around one whitespace character splits each side independently. |
| Text.DecimalRoundTrip | yuv_ai_auto_captioning_llava_llama.py:135 | Reading back the decimal digits of a counter gives the counter. |
| Seqs.Filter | yuv_ai_auto_captioning_llava_llama.py:84 | A filter keeps exactly the elements that pass, and keeps them in order. |
| Seqs.FilterAppend | yuv_ai_auto_captioning_llava_llama.py:84 | Filtering distributes over concatenation. |
| Seqs.Take | yuv_ai_auto_captioning_llava_llama.py:84 | `s[:n]` is the prefix of length `n`, or all of `s` when it is shorter. |
| Pipeline.ImageNameSplits | yuv_ai_auto_captioning_llava_llama.py:20 | Take an image name with something other than dots before its allowed extension. `splitext` splits it into that extension, in the file's own case, and the rest. |
| Pipeline.CaptionFilePairsBack | yuv_ai_auto_captioning_llava_llama.py:68-111 | Take the caption file stage 1 writes for an image. Cutting off its `.txt` gives the image's stem, and the pairing scan finds the image again when no other file competes for that stem. |
| Pipeline.DiscoveredImagePairsBack | yuv_ai_auto_captioning_llava_llama.py:20-111 | Take an image that passes the discovery filter, has something other than dots before its extension, and is the only allowed-extension file with its lower-cased stem. Its stage 1 caption file is paired back in stage 2 with exactly that image. |
| Pipeline.CaptionedImageRenamed | yuv_ai_auto_captioning_llava_llama.py:102-144 | Stage 2 then plans the rename of exactly that image and that caption file whenever the summary succeeds. |
| Pipeline.HiddenImageNotPaired | yuv_ai_auto_captioning_llava_llama.py:68-111 | `.png` is discovered as an image. Its caption file `.png.txt` pairs with no image, because `splitext` sees no extension in `.png`. |

## Left out

- The HTTP exchanges with the model server are left out: the URL, headers, payloads, prompts and model names, and `response.json()`. The outcome of each exchange is an oracle `Response`. Invalid JSON and a non-string `response` field are not modelled.
- Transport errors are not modelled. When `requests.post` raises, for example on a refused connection, the script aborts; the model only knows the outcomes that come back with a status code.
- `summarise` is keyed by the text file name. The real request carries the stripped contents of that file, and reading the file is not modelled.
- `encode_image_to_base64` is left out: it only reads bytes and encodes them for the payload.
- File writes, reads, `print` and `os.rename` are left out. Stage 1 yields the writes it would perform and stage 2 the renames it would plan.
- Failures of writes and renames are not modelled, nor is a rename overwriting an existing file that was not assigned in this run.
- `os.listdir` errors other than a missing folder are not modelled. In the source they propagate as exceptions.
- `define_path` (the identity) is left out, and so is the script glue at the bottom of the file. This includes the case where the error string of `list_image_files` is handed on to `generate_image_captions`.
- The unused `potential_path` of the pairing loop is left out.
- Python's `str.lower` and `str.isalnum` are modelled for ASCII only; non-ASCII characters are left unchanged and rejected. `str.split` uses Python's full set of whitespace characters.
- The pass sees the listing snapshot taken before its first rename. That is also what the source does. Later renames that touch files already renamed are not modelled, because they are file-system effects.
- Renamer.Pass: its own contract only bounds the number of renames. What the pass promises is stated by `RenamePass`, `PassDistinct`, `PassAll` and `TargetsDistinct`.
