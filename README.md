# Blog post image reconciliation, modelled in Dafny

This project models the image loop of `BlogController::update` in a multi-tenant blog admin.
When an editor saves a post, every image descriptor sent with the request (`original`,
`filename`, `label`, `scaledW`, `scaledH`, under a key) is matched to an image record of the
post's scope. The image file is found in the shared upload directory or in the original
scope's blog directory, and it is moved to `assets/<scope>/blog/<filename>`. If another image
of the post or of one of its revisions already occupies that name, the occupant's file and
its `scaled/` copy are first renamed to `<stem>-rev<timestamp>.<ext>`, and the occupant record
is pointed at the new name. Stale scaled copies are then deleted, the scaled variant is cropped
or copied, and the record is saved. The markdown body is rewritten: the original filename
becomes the final one, tolerating `%20` for whitespace, and alt texts of references to the file
become the label. An `is_default` association entry is recorded for each image. Beside the
loop sit the slug, status and redirect rules.

Layout, leaves first:

- `wrappers.dfy` (`Wrappers`): `Option` and `Result`.
- `text.dfy` (`Text`): PCRE's `\s`, PHP's substring search, and decimal timestamps.
- `paths.dfy` (`Paths`): `/`-joined paths, the staging, thumbnail, blog and scaled directories, and why they never coincide.
- `revname.dfy` (`Revisions`): the `-rev<timestamp>` name built from `explode('.', …)`.
- `rules.dfy` (`Rules`): `is_default`, slug, status and redirect rules.
- `rewrite.dfy` (`Rewrite`): the two `preg_replace` rewrites of the body, each with a reference reading and a proof that the matcher agrees with it.
- `reconcile.dfy` (`Reconcile`): one pass of the loop (`Step`) and the whole loop (`Run`), as functions from a store of files and records to the next store.
- `guarantees.dfy` (`Guarantees`): what a pass and the loop guarantee, as lemmas about `Step` and `Run`.
- `blog.dfy` (`Blog`): the class `Site`. It holds the files map, the images table and the saved post. `ProcessImage` and `Update` do the work step by step and are proved equal to `Step` and `Run`, so the `Guarantees` lemmas hold for them.

Modelling choices:

- The filesystem is a map from path to bytes. `File::move` replaces its target; moving or copying a missing file is an error (`MoveFailed`, `CopyFailed`), because PHP's warning becomes an exception under the framework's error handler. `File::delete` of a missing file is silent.
- The images table is a sequence, and an id is a position in it. A saved new record is appended. `first()` takes the lowest id.
- The ORM's relations are given as sets of ids. `scopeLinked` holds the records linked to a post or sermon of the post's scope. `postLinked` holds those linked to the post or one of its revisions.
- A null `$oldImage` (untitled.php:253) and an occupant filename without a `.` (untitled.php:261) are error outcomes that end the request before any file of that pass moves.
- The record attribute `filename` read at untitled.php:260 and untitled.php:302 is taken to be the `image_src` column. The `Image` model is not part of this model.
- The regex engine's pattern compiler is not modelled. Whether it accepts the two patterns built from a filename (untitled.php:277, 337) is given per filename, as two predicates in the loop's context.
- `Thumbs::crop` is a function parameter. `Carbon::now()->timestamp` is one clock value per descriptor. The body produced by `HtmlToMarkdown::convert` is a parameter. `Gate::allows('modify_post_status')` is a boolean. The other posts' slugs are a set, and `Str::slug` of the current date-time is a string.

Behaviour of the code that the lemmas make explicit:

- The rewrite is not idempotent when the final filename contains the original one. Renaming `a` to `ba` turns `ba` into `bba` on a second pass (`Rewrite.RewriteTwiceExample`).
- A failing request does not roll anything back. The files moved and the records saved for earlier descriptors stay as they are. Only the post itself is not saved (`Blog.Site.Update`).
- The substring test of `is_default` also marks images that were not asked for (`Rules.SubstringSelectsOtherImage`). An empty requested default marks every image (`Rules.EmptyRequestMarksEveryImage`).
- Nothing makes the rev name unique. The lemmas that follow the occupant's bytes assume the rev name differs from the descriptor's `original`.
- With file and folder names that are single path segments, no move or copy of a missing file ever happens. A request then fails only in four ways (`Guarantees.RunErrors`):
  - "Image not found to rename";
  - a missing occupant record;
  - an occupant name without a dot;
  - a descriptor's filename that the regex engine cannot compile as part of a pattern (untitled.php:277 or 337).

  `Thumbs::crop` is a function parameter here, so a failed crop is never an outcome; `Guarantees.FinishFiles`' "never fails" depends on that.
- The filename goes unquoted into two patterns. A name such as `a(b.jpg` makes `preg_replace` fail with a warning, which ends the request like the failed `rename` above.
  - At untitled.php:277 the failure comes right after the move. The file is at its destination, but the record is not saved, no stale copy is deleted and no scaled copy is made (`Guarantees.StepRejected`).
  - At untitled.php:337 the failure comes after the record is saved.

## Model

| member | source | states |
|---|---|---|
| `Text.Contains` | untitled.php:319 | `strpos(...) !== false`, also used at untitled.php line 252; `Text.ContainsOccurrence` characterises it |
| `Text.ContainsOccurrence` | untitled.php:319 | `strpos(...) !== false` holds exactly when the needle occurs at some index of the haystack |
| `Text.DecimalString` | untitled.php:261 | the timestamp is rendered as a non-empty string of decimal digits |
| `Text.DecimalRoundTrip` | untitled.php:261 | the rendered timestamp reads back as the same number |
| `Paths.SplitJoin` | untitled.php:243 | a path built from a directory and a `/`-free name splits back into exactly that directory and name |
| `Paths.JoinInjective` | untitled.php:243 | two such paths are equal exactly when their directories and names are |
| `Paths.DirsDistinct` | untitled.php:200-201 | the staging, thumbnail, blog and scaled directories never coincide, and `/`-free scope folders give distinct blog and scaled directories |
| `Revisions.UpToDot` | untitled.php:260 | `explode('.', …)[0]` is the dot-free prefix, followed by a dot when shorter than the name |
| `Revisions.RevName` | untitled.php:260-261 | a rev name exists exactly when the name has a dot; it differs from the name and uses only the name's characters and `-rev.` and digits |
| `Revisions.RevNameOfStemAndExtension` | untitled.php:260-261 | `stem.ext` becomes `stem-rev<stamp>.ext` |
| `Revisions.RevNameDropsLaterParts` | untitled.php:260-261 | with two dots, `a.b.c` becomes `a-rev<stamp>.b`: everything after the second dot is lost |
| `Rules.IsDefault` | untitled.php:317-321 | the `is_default` rule; `Rules.IsDefaultExactly`, `Rules.SubstringSelectsOtherImage` and `Rules.EmptyRequestMarksEveryImage` characterise it |
| `Rules.IsDefaultExactly` | untitled.php:317-321 | `is_default` holds exactly when the requested default equals the id, equals the descriptor key, or occurs in the original filename |
| `Rules.SubstringSelectsOtherImage` | untitled.php:319 | asking for image 12 also marks image 3 named `photo12.jpg` as default |
| `Rules.EmptyRequestMarksEveryImage` | untitled.php:319 | with an empty requested default every image is marked default |
| `Rules.ChooseSlug` | untitled.php:347-351 | the requested slug is kept exactly when no other post has it, else it is extended by `-` and the date stamp |
| `Rules.ChooseStatus` | untitled.php:188-192 | a user allowed to change status gets the requested one; otherwise the current status stays unless it is falsy, and then becomes `pending` |
| `Rules.RecordsRedirect` | untitled.php:353-356 | the redirect condition; `Rules.RedirectWhenSlugTaken` characterises it for a request that keeps the stored slug |
| `Rules.RedirectWhenSlugTaken` | untitled.php:347-356 | when the request keeps the stored slug, a post being published that asks for a redirect gets one exactly when that slug is taken by another post or its scope changes |
| `Rewrite.Compile` | untitled.php:325-329 | the pattern built from the original has one atom per character of it; what it matches is stated by `Rewrite.MatchSound` and `Rewrite.MatchComplete` |
| `Rewrite.MatchPrefix` | untitled.php:330-334 | a match at the start of the text is at least as long as the pattern and fits in the text; `Rewrite.MatchSound`, `Rewrite.MatchComplete` characterise it |
| `Rewrite.MatchSound` | untitled.php:325-331 | whatever the compiled pattern matches at the start of the text spells the original, each whitespace written as a whitespace character or `%20` |
| `Rewrite.MatchComplete` | untitled.php:325-331 | every such spelling at the start of the text is exactly what the compiled pattern matches |
| `Rewrite.MatchPrefixTolerates` | untitled.php:325-331 | the compiled pattern matches a prefix exactly when it spells the original with each whitespace written as any whitespace character or `%20` |
| `Rewrite.NoMatchPrefix` | untitled.php:325-331 | the pattern fails at a position exactly when no prefix there spells the original |
| `Rewrite.ReplaceAll` | untitled.php:330-334 | the filename substitution; `Rewrite.SubstituteNowhere`, `Rewrite.SubstituteFirst` and `Rewrite.SubstituteAtStart` characterise it |
| `Rewrite.SubstituteNowhere` | untitled.php:330-334 | a body in which the original occurs nowhere is unchanged by the filename substitution |
| `Rewrite.SubstituteFirst` | untitled.php:330-334 | the leftmost occurrence is replaced by the final filename and the scan resumes after it |
| `Rewrite.CloseBracketFirst` | untitled.php:338 | the alt text ends at the first `]` |
| `Rewrite.NameStartFirst` | untitled.php:338 | the lazy `[^\[\]]*?` stops at the first place where the filename and `)` fit, never crossing a bracket |
| `Rewrite.AltMatchSound` | untitled.php:338 | the alt-text matcher finds a match of the reference reading, and finds one whenever there is one |
| `Rewrite.AltMatchIff` | untitled.php:338 | the matcher returns (j, m) exactly when the reference reading holds at (j, m) |
| `Rewrite.ReplaceAlt` | untitled.php:336-341 | the alt-text substitution; `Rewrite.AltNowhere` and `Rewrite.AltFirst` characterise it |
| `Rewrite.AltNowhere` | untitled.php:337-341 | a body without a reference to the filename keeps all its alt texts |
| `Rewrite.AltFirst` | untitled.php:337-341 | at the leftmost reference the alt text becomes the label and the text from `](` to `)` is kept verbatim |
| `Rewrite.RewriteBody` | untitled.php:323-341 | both substitutions for one image; `Rewrite.RewriteUntouched` and `Rewrite.RewriteTwiceExample` characterise it |
| `Rewrite.RewriteUntouched` | untitled.php:324-341 | a body that neither mentions the original nor refers to the filename comes back unchanged |
| `Rewrite.AltExample` | untitled.php:337-341 | `![x](p.png)` with label `Sea` becomes `![Sea](p.png)` |
| `Rewrite.RenameEncodedSpaceExample` | untitled.php:325-334 | `a%20b` in the body is renamed as `a b` would be |
| `Rewrite.RewriteTwiceExample` | untitled.php:324-341 | rewriting twice differs from rewriting once when the final name contains the original |
| `Reconcile.LookupFirst` | untitled.php:210-219 | a lookup returns the lowest selected id, and fails only when no record is selected |
| `Reconcile.NameLookup` | untitled.php:210-219 | a lookup by name among the scope-linked records fails exactly when no linked record has that name, and no linked record with a lower id has it when it succeeds |
| `Reconcile.Resolve` | untitled.php:210-223 | the working record is the scope-linked record named `original` with the lowest id; it is a fresh one exactly when no linked record has that name |
| `Reconcile.MoveFile` | untitled.php:275 | a move succeeds exactly when the source exists; the target then holds the source's bytes, the source is gone, and nothing else changes |
| `Reconcile.CopyFile` | untitled.php:308-311 | a copy succeeds exactly when the source exists; the target then holds the source's bytes, and nothing else changes |
| `Reconcile.SourcePath` | untitled.php:225-239 | the staged upload wins when it exists, else the original in the blog folder of the original scope, or of the post's scope when there is no original scope; there is none exactly when neither exists |
| `Reconcile.ClearCollision` | untitled.php:244-272 | a collision branch that goes on marks the pass as renamed and keeps the number of records; one that stops has changed no record (its promises in full: `Guarantees.ClearStops`, `Guarantees.ClearMoves`) |
| `Reconcile.MoveIn` | untitled.php:274-283 | the main move goes on exactly when the source exists and the `upload/` pattern compiles; the destination then holds the source's bytes and the records are kept; a missing source changes nothing; a rejected pattern stops after the move |
| `Reconcile.Save` | untitled.php:314 | saving updates an existing row in place or appends a new one, and leaves every other row unchanged |
| `Reconcile.Arrive` | untitled.php:210-283 | the first part of a pass keeps the number of records, and one that goes on has a working record that exists in the table (its effect on the files: `Guarantees.ArriveFacts`, `Guarantees.ArriveCollision`) |
| `Reconcile.StalePaths` | untitled.php:294-297 | the four scaled copies a pass deletes; `Guarantees.ScaledApart` and `Guarantees.StaleApartFromRev` prove them apart from every other path a pass touches, `Guarantees.StepStale` and `Guarantees.StaleKept` say when they go |
| `Reconcile.Finish` | untitled.php:286-321 | the rest of a pass adds at most one record, and its entry names a record that exists (in full: `Guarantees.FinishFiles`, `Guarantees.FinishRecord`) |
| `Reconcile.Step` | untitled.php:210-321 | one pass adds at most one record and its entry names a record that exists (in full: `Guarantees.StepOutcome`, `Guarantees.StepMoves`, `Guarantees.StepOccupant`, `Guarantees.StepStale`, `Guarantees.StepScaled`, `Guarantees.StepRecord`) |
| `Reconcile.Run` | untitled.php:209-342 | the loop never removes a record, and a pattern the regex engine rejects at untitled.php:337 ends it after the pass (in full: `Guarantees.RunProgress`, `Guarantees.RunErrors`, `Guarantees.RunEntriesExist`) |
| `Reconcile.Associations` | untitled.php:317-321 | the association map built entry by entry; `Guarantees.AssociationsDomain` and `Guarantees.AssociationsLast` characterise it |
| `Guarantees.Occupant` | untitled.php:247-253 | the occupant record found carries the destination filename |
| `Guarantees.ScaledApart` | untitled.php:292-315 | scaled copies and upload thumbnails never coincide with the source, the destination or a rev path |
| `Guarantees.RevPathsApart` | untitled.php:243-275 | the paths the collision branch moves between are distinct from one another and from the source |
| `Guarantees.StaleApartFromRev` | untitled.php:265-297 | the scaled rev path is none of the stale scaled paths |
| `Guarantees.RevNameSegment` | untitled.php:260-262 | the rev name of a `/`-free name is `/`-free |
| `Guarantees.MoveKept` | untitled.php:275 | a move changes its two paths only |
| `Guarantees.ClearStops` | untitled.php:247-261 | the collision branch stops without changing anything when no occupant is found or its name has no dot |
| `Guarantees.ClearMoves` | untitled.php:255-271 | otherwise the occupant's file and scaled copy move to the rev name, the occupant record takes it, and a working record that is the occupant is replaced by a fresh one |
| `Guarantees.FinishFiles` | untitled.php:292-315 | the rest of a pass never fails; it deletes the stale scaled copies unless a collision was renamed, makes the scaled copy a copy of the destination when there is no crop, deletes the upload thumbnail and touches no other path |
| `Guarantees.FinishRecord` | untitled.php:286-321 | the rest of a pass saves the record in place or appended with label, sizes and crop location, changes no other record, and yields the `is_default` flag for the saved id |
| `Guarantees.ArriveFacts` | untitled.php:230-283 | after the move the destination exists and the source is gone; without a collision only those two paths change |
| `Guarantees.ArriveCollision` | untitled.php:243-283 | through the collision branch the occupant is renamed away and the source moves into its place |
| `Guarantees.StepOutcome` | untitled.php:225-283 | a pass fails with "Image not found" exactly when neither source exists; otherwise it fails only for a missing occupant, a dotless name, or, after a move, an `upload/` pattern that does not compile; a pass that fails before the move changes nothing |
| `Guarantees.StepRejected` | untitled.php:274-281 | a pass rejected at the `upload/` pattern has moved the source to the destination, added no record, and (without a collision) left the working record as it was |
| `Guarantees.StepMoves` | untitled.php:243-286 | after a move the destination holds the source's bytes, the source is gone and the record takes `filename`; in place nothing moves; the alt text is always the label |
| `Guarantees.StepOccupant` | untitled.php:244-272 | after a collision the occupant's bytes and scaled copy are under the rev name, the occupant record is renamed and the incoming file goes to another record |
| `Guarantees.StepStale` | untitled.php:292-298 | the stale scaled copies are gone unless a collision was renamed, in which case they are left as they were |
| `Guarantees.StaleKept` | untitled.php:255-298 | after a collision the stale scaled copies other than the one at the final name are present exactly when they were before the pass |
| `Guarantees.StepScaled` | untitled.php:289-312 | sizes are stored; with both sizes the location is the crop of the saved file, else `scaled/<filename>` is a byte copy of the destination |
| `Guarantees.StepRecord` | untitled.php:314-321 | the saved record is the resolved one or a new one, the entry's flag is the `is_default` rule, and no other record but the occupant changes |
| `Guarantees.RunProgress` | untitled.php:209-345 | a request that goes through rewrites the body once per descriptor, in order, and yields one entry per descriptor |
| `Guarantees.RunEntriesExist` | untitled.php:209-321 | every association entry a request that goes through adds names a record that exists at the end, so `sync` gets only existing ids |
| `Guarantees.RunErrors` | untitled.php:209-342 | with `/`-free names a request fails only for a missing image, a missing occupant, a dotless occupant name, or a descriptor's filename one of whose two patterns does not compile |
| `Guarantees.AssociationsDomain` | untitled.php:317-321 | the association map holds an id exactly when some entry has it |
| `Guarantees.AssociationsLast` | untitled.php:317-321 | for an id, the map holds the flag of the last entry with that id |
| `Blog.Site.Move` | untitled.php:275 | `File::move` replaces the target with the source, and fails without change when the source is missing |
| `Blog.Site.Copy` | untitled.php:308-311 | `copy` gives the target the source's bytes, and fails without change when the source is missing |
| `Blog.Site.Delete` | untitled.php:294-297 | `File::delete` removes the path, if it exists |
| `Blog.Site.ClearCollisionAt` | untitled.php:247-271 | the collision branch, step by step, does what `Reconcile.ClearCollision` says |
| `Blog.Site.FinishAt` | untitled.php:286-321 | the rest of a pass, step by step, does what `Reconcile.Finish` says |
| `Blog.Site.ProcessImage` | untitled.php:210-321 | one pass leaves the files and records, and returns the result, that `Reconcile.Step` gives |
| `Blog.Site.Update` | untitled.php:179-370 | the loop leaves the store that `Reconcile.Run` gives; on error the post is not saved; otherwise body, slug, status and associations are saved as the rules say |

## Left out

- The listing for the data table, `preview`, `uploadImages`, `edit`, `destroy`, `restorePost` and the commenting toggles: glue code around the update.
- Title, meta description, excerpt, focus keyword and `published_at` (untitled.php:181-186, 194-195): plain field copies, with no image involvement.
- Category and tag creation and sync (untitled.php:372-388), and the redirect record itself (untitled.php:357-364): persistence side effects. Only the condition that triggers a redirect is modelled (`Rules.RecordsRedirect`).
- The body computed by the `content_html` assignment at untitled.php:277-281: it is overwritten at untitled.php:345 before anything is saved. Only the failure of its pattern is modelled (`Reconcile.MoveIn`).
- `Thumbs::crop` writes a cropped file into `scaled/`. Only the location it returns is modelled, so after a crop the model does not show that file.
- The ORM queries: which records are linked to the post, its revisions or the scope is given as sets of ids, and which record `first()` returns among several is taken to be the lowest id.
- Failures of the filesystem other than a missing source (permissions, a full disk), and concurrent requests touching the same files.
- `clearstatcache()` and the `public_path` prefix: the model's paths are relative to the public directory.
- Rewrite.ReplaceAlt: the label is inserted as literal text. In the source, a `$` or `\` in the label is read by `preg_replace` as a back-reference, and that is not modelled.
- Rewrite.Fits: of the regex characters in the unquoted filename (untitled.php:338), only `.` is read as a pattern character. Any other metacharacter is taken literally.
- Rewrite.Fits: PHP strings are bytes, and neither pattern has the `u` flag, so the filename's `.` matches exactly one byte other than a newline. The model matches one character. The two agree on ASCII text only. Filename `a.b` against body text `aéb)` gives no match in the source, because `é` is two bytes, but `Rewrite.ClosesAt` holds in the model.
- Reconcile.SourcePath, Reconcile.Collides: `file_exists` at untitled.php:231, 235 and 244 is also true of a directory, but the files map holds files only. With an empty `original`, the staged "source" is the upload directory itself, and untitled.php:275 moves that directory. The model reports "Image not found to rename" instead.
- Guarantees.StepMoves: it assumes the rev name differs from the descriptor's `original`. When they are equal and the original is found in the new scope's folder, the collision rename overwrites the source.
- Guarantees.StepOccupant: it assumes the rev name differs from the descriptor's `original`, as above.
- Guarantees.StepStale: it assumes the rev name differs from the descriptor's `original`, as above.
- Guarantees.StaleKept: it assumes the rev name differs from the descriptor's `original`, as above. When they are equal, the scaled rev path in the post's scope is the stale path `scaled/<original>`, and the occupant's scaled copy lands on it.
- Rules.IsDefault: as `Rules.IsDefaultExactly` below, the loose `==` at untitled.php:318 and 320 is modelled as exact string equality.
- Rules.IsDefaultExactly: the two comparisons at untitled.php:318 and 320 use PHP's loose `==`, and the model compares strings exactly (the id through its decimal form). A numeric string such as `"03"`, `" 3"` or `"3.0"` equals the integer 3 in PHP 8 and marks image 3 in the source, but not in the model. A numeric key compared with a numeric string is likewise compared by value in the source.
- Rewrite.ReplaceAll: the filename is inserted as literal text, while `preg_replace` at untitled.php:332 reads `$n`, `${n}` and `\n` in it as back-references (see `Rewrite.SubstituteFirst` below).
- Rewrite.RewriteBody: the guard at untitled.php:323 is PHP's loose `!=`, modelled as string inequality, and the filename is inserted without back-references (see `Rewrite.SubstituteFirst` below).
- Rewrite.SubstituteFirst: the filename is inserted as literal text. At untitled.php:332 `preg_replace` reads `$n`, `${n}` and `\n` in it as back-references, so a filename such as `cost$5.jpg` is inserted as `cost.jpg` in the source. The guard at untitled.php:323 is PHP's loose `!=`, so two numeric names that are equal as numbers (`1.0` and `1`) are not rewritten in the source; `Rewrite.RewriteBody` compares the names as strings.
- Text.Contains: it follows PHP 8, where `strpos` with an empty needle finds it at 0. PHP 7 returned false with a warning.
