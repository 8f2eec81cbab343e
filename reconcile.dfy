/**
 * One pass of the image loop of `BlogController::update` (untitled.php:207-342), stated on
 * values: a store of files and image records goes in, the store after the pass comes out,
 * together with the association entry for the image or the error that ended the request.
 */
module Reconcile {
  import opened Text
  import opened Wrappers
  import opened Paths
  import opened Revisions
  import opened Rules
  import opened Rewrite

  type Bytes = seq<bv8>

  /** The public directory: file contents by path. */
  type Files = map<Str, Bytes>

  /** A row of the images table; a column that is null is the empty string or 0. */
  datatype ImageRecord = ImageRecord(src: Str, alt: Str, scaledWidth: nat, scaledHeight: nat, scaledLocation: Str)

  /** A record that has never been saved (`new Image()`). */
  const Blank := ImageRecord("", "", 0, 0, "")

  /**
   * One entry of `$request->images`: its key in the request and the fields
   * `original`, `filename`, `label`, `scaledW`, `scaledH` (a missing size is 0).
   */
  datatype Descriptor = Descriptor(key: Str, original: Str, filename: Str, caption: Str, scaledW: nat, scaledH: nat)

  /**
   * What the loop reads besides the store: the folder name of the post's scope, that of the
   * request's original scope when it exists, the requested default image, and the ids of the
   * records linked to a post or sermon of the post's scope and to the post or one of its revisions.
   *
   * The filename goes unquoted into two regular expressions, `/upload\/<filename>/`
   * (untitled.php:277) and the alt-text pattern (untitled.php:337). Whether the regex engine
   * compiles each of them is given per filename: a name with an unbalanced `(` or `[`, say,
   * makes `preg_replace` fail.
   */
  datatype Context = Context(
    scopeFolder: Str,
    originalFolder: Option<Str>,
    defaultImage: Str,
    scopeLinked: set<nat>,
    postLinked: set<nat>,
    uploadPatternCompiles: Str -> bool,
    altPatternCompiles: Str -> bool)

  /** The folder an unstaged image is looked for in (untitled.php:225-226). */
  function LocationFolder(ctx: Context): Str
  {
    match ctx.originalFolder
    case Some(folder) => folder
    case None => ctx.scopeFolder
  }

  /** Image ids are positions in `images`; a new record gets the next position. */
  datatype Store = Store(files: Files, images: seq<ImageRecord>)

  /** The image the loop is working on: the row it was read from, if any, and its fields. */
  datatype Working = Working(id: Option<nat>, rec: ImageRecord)

  const Fresh := Working(None, Blank)

  datatype Error =
    | ImageNotFound(original: Str)            // untitled.php:235-238
    | OccupantRecordMissing(filename: Str)    // `$oldImage` is null at untitled.php:260
    | OccupantNameWithoutDot(name: Str)       // `$oldImageParts[1]` is undefined at untitled.php:261
    | MoveFailed(from: Str)                   // rename of a path that does not exist
    | CopyFailed(from: Str)                   // copy of a path that does not exist
    | PatternRejected(filename: Str)          // `preg_replace` cannot compile the pattern at untitled.php:277 or 337

  /** One association row for `sync`: the image id and its `is_default` flag. */
  datatype Entry = Entry(id: nat, isDefault: bool)

  datatype StepOut = StepOut(store: Store, result: Result<Entry, Error>)

  // ---------------------------------------------------------------- record queries

  /** `Image::where('image_src', src)` restricted to linked ids, and optionally to rows outside revisions. */
  datatype Query = Query(src: Str, linked: set<nat>, skipRevisions: bool)

  predicate Selected(images: seq<ImageRecord>, q: Query, i: nat)
  {
    i < |images| && images[i].src == q.src && i in q.linked &&
    !(q.skipRevisions && Contains(images[i].scaledLocation, "revisions"))
  }

  function FirstFrom(images: seq<ImageRecord>, q: Query, k: nat): (r: Option<nat>)
    ensures r.Some? ==> k <= r.value && Selected(images, q, r.value)
    decreases |images| - k
  {
    if k >= |images| then None
    else if Selected(images, q, k) then Some(k)
    else FirstFrom(images, q, k + 1)
  }

  /** `->first()`: the selected record with the lowest id. */
  function Lookup(images: seq<ImageRecord>, q: Query): (r: Option<nat>)
  {
    FirstFrom(images, q, 0)
  }

  lemma {:induction false} FirstFromLeast(images: seq<ImageRecord>, q: Query, k: nat, i: nat)
    requires k <= i && Selected(images, q, i)
    ensures FirstFrom(images, q, k).Some? && FirstFrom(images, q, k).value <= i
    decreases |images| - k
  {
    if !Selected(images, q, k) {
      FirstFromLeast(images, q, k + 1, i);
    }
  }

  /** The lookup finds a selected record, no selected record has a lower id, and it fails only when none is selected. */
  lemma LookupFirst(images: seq<ImageRecord>, q: Query)
    ensures Lookup(images, q).Some? ==> Selected(images, q, Lookup(images, q).value)
    ensures Lookup(images, q).Some? ==> forall i :: 0 <= i < Lookup(images, q).value ==> !Selected(images, q, i)
    ensures Lookup(images, q).None? <==> forall i :: 0 <= i ==> !Selected(images, q, i)
  {
    forall i | 0 <= i && Selected(images, q, i)
      ensures Lookup(images, q).Some? && Lookup(images, q).value <= i
    {
      FirstFromLeast(images, q, 0, i);
    }
  }

  /** A lookup by name among linked records, read back in terms of the records' names. */
  lemma NameLookup(images: seq<ImageRecord>, name: Str, linked: set<nat>)
    ensures var r := Lookup(images, Query(name, linked, false));
      (r.Some? ==> forall i :: 0 <= i < r.value && i in linked ==> images[i].src != name) &&
      (r.None? <==> forall i :: 0 <= i < |images| && i in linked ==> images[i].src != name)
  {
    var q := Query(name, linked, false);
    LookupFirst(images, q);
    forall i | 0 <= i < |images| && i in linked && images[i].src == name
      ensures Selected(images, q, i)
    {
    }
  }

  /**
   * The record the descriptor updates (untitled.php:210-223): the linked record named
   * `original` with the lowest id, or a fresh one exactly when no linked record has that name.
   */
  function Resolve(images: seq<ImageRecord>, d: Descriptor, ctx: Context): (w: Working)
    ensures w.id.Some? ==> w.id.value < |images| && w.rec == images[w.id.value] && w.rec.src == d.original
    ensures w.id.Some? ==> w.id.value in ctx.scopeLinked
    ensures w.id.Some? ==> forall i :: 0 <= i < w.id.value && i in ctx.scopeLinked ==> images[i].src != d.original
    ensures w.id.None? ==> w == Fresh
    ensures w.id.None? <==> forall i :: 0 <= i < |images| && i in ctx.scopeLinked ==> images[i].src != d.original
  {
    NameLookup(images, d.original, ctx.scopeLinked);
    match Lookup(images, Query(d.original, ctx.scopeLinked, false))
    case Some(i) => Working(Some(i), images[i])
    case None => Fresh
  }

  /** The record that holds the destination name, for the collision branch (untitled.php:247-253). */
  function OccupantQuery(d: Descriptor, ctx: Context): Query
  {
    Query(d.filename, ctx.postLinked, true)
  }

  // ---------------------------------------------------------------- files

  /** `rename`: the target is overwritten if it exists; a missing source raises. */
  function MoveFile(files: Files, from: Str, to: Str): (r: Result<Files, Error>)
    ensures r.Ok? <==> from in files
    ensures r.Ok? ==> to in r.value && r.value[to] == files[from]
    ensures r.Ok? && from != to ==> from !in r.value
    ensures r.Ok? ==> forall p :: p != from && p != to ==> (p in r.value <==> p in files)
    ensures r.Ok? ==> forall p :: p != from && p != to && p in files ==> r.value[p] == files[p]
  {
    if from in files then Ok((files - {from})[to := files[from]]) else Err(MoveFailed(from))
  }

  /** `copy`: the target gets the source's bytes; a missing source raises. */
  function CopyFile(files: Files, from: Str, to: Str): (r: Result<Files, Error>)
    ensures r.Ok? <==> from in files
    ensures r.Ok? ==> from in r.value && to in r.value && r.value[to] == files[from] && r.value[from] == files[from]
    ensures r.Ok? ==> forall p :: p != to ==> (p in r.value <==> p in files)
    ensures r.Ok? ==> forall p :: p != to && p in files ==> r.value[p] == files[p]
  {
    if from in files then Ok(files[to := files[from]]) else Err(CopyFailed(from))
  }

  // ---------------------------------------------------------------- paths of one descriptor

  function StagedPath(d: Descriptor): Str { Join(StagingDir, d.original) }
  function LocatedPath(d: Descriptor, ctx: Context): Str { Join(BlogDir(LocationFolder(ctx)), d.original) }
  function Destination(d: Descriptor, ctx: Context): Str { Join(BlogDir(ctx.scopeFolder), d.filename) }
  function ScaledDestination(d: Descriptor, ctx: Context): Str { Join(ScaledDir(ctx.scopeFolder), d.filename) }
  function ThumbPath(d: Descriptor): Str { Join(ThumbsDir, d.original) }

  /** The four scaled copies deleted when no collision was renamed (untitled.php:294-297). */
  function StalePaths(d: Descriptor, ctx: Context): set<Str>
  {
    { Join(ScaledDir(LocationFolder(ctx)), d.original), Join(ScaledDir(LocationFolder(ctx)), d.filename),
      Join(ScaledDir(ctx.scopeFolder), d.original), ScaledDestination(d, ctx) }
  }

  /** The file to move in: the staged upload if there is one, else the copy in the location folder. */
  function SourcePath(files: Files, d: Descriptor, ctx: Context): (r: Option<Str>)
    ensures r.Some? ==> r.value in files
    ensures r.None? <==> StagedPath(d) !in files && LocatedPath(d, ctx) !in files
    ensures StagedPath(d) in files ==> r == Some(StagedPath(d))
    ensures StagedPath(d) !in files && r.Some? ==> r.value == LocatedPath(d, ctx)
    ensures StagedPath(d) !in files && r.Some? ==>
      r.value == Join(BlogDir(if ctx.originalFolder.Some? then ctx.originalFolder.value else ctx.scopeFolder), d.original)
  {
    if StagedPath(d) in files then Some(StagedPath(d))
    else if LocatedPath(d, ctx) in files then Some(LocatedPath(d, ctx))
    else None
  }

  // ---------------------------------------------------------------- the step, stage by stage

  /** Where the loop is inside one pass: the store so far, the working image and whether a collision was renamed. */
  datatype Stage = Stage(store: Store, work: Working, revised: bool)

  datatype Outcome = Continue(stage: Stage) | Stop(at: Store, error: Error)

  predicate WorkingIn(images: seq<ImageRecord>, w: Working)
  {
    w.id.Some? ==> w.id.value < |images|
  }

  /**
   * The collision branch (untitled.php:244-272): find the occupant record, take a fresh image
   * when the working one is the occupant, and move the occupant's file and its scaled copy
   * to the rev name before pointing the occupant record at it.
   */
  function ClearCollision(st: Store, work: Working, d: Descriptor, ctx: Context, now: nat): (r: Outcome)
    requires WorkingIn(st.images, work)
    ensures r.Continue? ==> WorkingIn(r.stage.store.images, r.stage.work) && r.stage.revised
    ensures r.Continue? ==> |r.stage.store.images| == |st.images|
    ensures r.Stop? ==> r.at.images == st.images
  {
    match Lookup(st.images, OccupantQuery(d, ctx))
    case None => Stop(st, OccupantRecordMissing(d.filename))
    case Some(o) =>
      var work' := if work.id == Some(o) then Fresh else work;
      var name := st.images[o].src;
      match RevName(name, now)
      case None => Stop(st, OccupantNameWithoutDot(name))
      case Some(rev) =>
        match MoveFile(st.files, Destination(d, ctx), Join(BlogDir(ctx.scopeFolder), rev))
        case Err(e) => Stop(st, e)
        case Ok(moved) =>
          var scaled := if ScaledDestination(d, ctx) in moved
            then MoveFile(moved, ScaledDestination(d, ctx), Join(ScaledDir(ctx.scopeFolder), rev))
            else Ok(moved);
          match scaled
          case Err(e) => Stop(Store(moved, st.images), e)
          case Ok(files) =>
            Continue(Stage(Store(files, st.images[o := st.images[o].(src := rev)]), work', true))
  }

  /**
   * The main move (untitled.php:274-283): the file goes to the destination, the body's
   * `upload/<filename>` references are rewritten, and the record takes the new name. A
   * filename the regex engine rejects ends the request after the move.
   */
  function MoveIn(stage: Stage, src: Str, d: Descriptor, ctx: Context): (r: Outcome)
    ensures r.Continue? <==> src in stage.store.files && ctx.uploadPatternCompiles(d.filename)
    ensures r.Continue? ==> r.stage.store.images == stage.store.images && r.stage.work.id == stage.work.id
    ensures r.Continue? ==> r.stage.revised == stage.revised && r.stage.work.rec.src == d.filename
    ensures r.Stop? && src !in stage.store.files ==> r.at == stage.store && r.error == MoveFailed(src)
    ensures r.Stop? && src in stage.store.files ==>
      r.at.images == stage.store.images && r.error == PatternRejected(d.filename)
    ensures src in stage.store.files ==> var files := if r.Continue? then r.stage.store.files else r.at.files;
      Destination(d, ctx) in files && files[Destination(d, ctx)] == stage.store.files[src]
  {
    match MoveFile(stage.store.files, src, Destination(d, ctx))
    case Err(e) => Stop(stage.store, e)
    case Ok(files) =>
      if !ctx.uploadPatternCompiles(d.filename) then Stop(Store(files, stage.store.images), PatternRejected(d.filename))
      else Continue(Stage(Store(files, stage.store.images), stage.work.(rec := stage.work.rec.(src := d.filename)), stage.revised))
  }

  /** `$image->save()`: an existing row is updated in place, a new one is appended. */
  function Save(images: seq<ImageRecord>, id: Option<nat>, rec: ImageRecord): (r: (seq<ImageRecord>, nat))
    requires id.Some? ==> id.value < |images|
    ensures r.1 < |r.0| && r.0[r.1] == rec
    ensures id.Some? ==> r.1 == id.value && |r.0| == |images|
    ensures id.None? ==> r.1 == |images| && |r.0| == |images| + 1
    ensures forall i :: 0 <= i < |images| && i != r.1 ==> r.0[i] == images[i]
  {
    match id
    case Some(i) => (images[i := rec], i)
    case None => (images + [rec], |images|)
  }

  /**
   * The rest of the pass (untitled.php:286-321): set alt text and sizes, delete stale scaled
   * copies unless a collision was renamed, crop or copy the scaled variant, save the record,
   * delete the upload thumbnail and produce the association entry.
   */
  function Finish(stage: Stage, d: Descriptor, ctx: Context, crop: (Str, nat, nat) -> Str): (r: StepOut)
    requires WorkingIn(stage.store.images, stage.work)
    ensures |stage.store.images| <= |r.store.images| <= |stage.store.images| + 1
    ensures r.result.Ok? ==> r.result.value.id < |r.store.images|
  {
    var rec := stage.work.rec.(alt := d.caption, scaledWidth := d.scaledW, scaledHeight := d.scaledH);
    var files := if stage.revised then stage.store.files else stage.store.files - StalePaths(d, ctx);
    var scaled :=
      if d.scaledW > 0 && d.scaledH > 0 then
        Ok((files, rec.(scaledLocation := crop(Join(BlogDir(ctx.scopeFolder), rec.src), d.scaledW, d.scaledH))))
      else
        match CopyFile(files, Destination(d, ctx), ScaledDestination(d, ctx))
        case Err(e) => Err(e)
        case Ok(copied) => Ok((copied, rec));
    match scaled
    case Err(e) => StepOut(Store(files, stage.store.images), Err(e))
    case Ok(pair) =>
      var saved := Save(stage.store.images, stage.work.id, pair.1);
      StepOut(Store(pair.0 - {ThumbPath(d)}, saved.0),
              Ok(Entry(saved.1, IsDefault(ctx.defaultImage, saved.1, d.original, d.key))))
  }

  /** Whether the pass runs the collision branch. */
  predicate Collides(files: Files, src: Str, d: Descriptor, ctx: Context)
  {
    src != Destination(d, ctx) && Destination(d, ctx) in files
  }

  /**
   * The first part of a pass (untitled.php:210-283): resolve the record, find the source,
   * clear a collision and move the file in, or stop with the error that ends the request.
   */
  function Arrive(st: Store, d: Descriptor, ctx: Context, now: nat): (r: Outcome)
    ensures r.Continue? ==> WorkingIn(r.stage.store.images, r.stage.work)
    ensures r.Continue? ==> |r.stage.store.images| == |st.images|
    ensures r.Stop? ==> |r.at.images| == |st.images|
  {
    var work := Resolve(st.images, d, ctx);
    match SourcePath(st.files, d, ctx)
    case None => Stop(st, ImageNotFound(d.original))
    case Some(src) =>
      if src == Destination(d, ctx) then Continue(Stage(st, work, false))
      else
        var cleared :=
          if Destination(d, ctx) in st.files then ClearCollision(st, work, d, ctx, now)
          else Continue(Stage(st, work, false));
        match cleared
        case Stop(at, e) => Stop(at, e)
        case Continue(stage) => MoveIn(stage, src, d, ctx)
  }

  /** One pass of the loop for descriptor `d` at time `now`, up to its association entry (untitled.php:210-321). */
  function Step(st: Store, d: Descriptor, ctx: Context, now: nat, crop: (Str, nat, nat) -> Str): (r: StepOut)
    ensures |st.images| <= |r.store.images| <= |st.images| + 1
    ensures r.result.Ok? ==> r.result.value.id < |r.store.images|
  {
    match Arrive(st, d, ctx, now)
    case Stop(at, e) => StepOut(at, Err(e))
    case Continue(stage) => Finish(stage, d, ctx, crop)
  }

  // ---------------------------------------------------------------- the loop

  /** What the loop accumulates: the rewritten body and the association entries in order. */
  datatype Progress = Progress(body: Str, entries: seq<Entry>)

  datatype RunOut = RunOut(store: Store, result: Result<Progress, Error>)

  /** The association entry first, then the two body rewrites (untitled.php:317-341). */
  function Advance(acc: Progress, d: Descriptor, entry: Entry): Progress
  {
    Progress(RewriteBody(acc.body, d.original, d.filename, d.caption), acc.entries + [entry])
  }

  /**
   * The loop over the descriptors, `clock[i]` being `Carbon::now()->timestamp` during pass i.
   * After a pass, the alt-text rewrite (untitled.php:336-341) fails when the regex engine
   * rejects its pattern. The first error ends the request with the store as it then is:
   * nothing is rolled back. Records are never removed.
   */
  function Run(st: Store, descs: seq<Descriptor>, clock: seq<nat>, ctx: Context,
               crop: (Str, nat, nat) -> Str, acc: Progress): (r: RunOut)
    requires |clock| == |descs|
    ensures |st.images| <= |r.store.images|
    decreases |descs|
  {
    if descs == [] then RunOut(st, Ok(acc))
    else
      var out := Step(st, descs[0], ctx, clock[0], crop);
      match out.result
      case Err(e) => RunOut(out.store, Err(e))
      case Ok(entry) =>
        if !ctx.altPatternCompiles(descs[0].filename) then RunOut(out.store, Err(PatternRejected(descs[0].filename)))
        else Run(out.store, descs[1..], clock[1..], ctx, crop, Advance(acc, descs[0], entry))
  }

  /** `$imageIds[$image->id] = ...` for each entry in turn: a later entry for an id replaces an earlier one. */
  function Associations(entries: seq<Entry>): map<nat, bool>
    decreases |entries|
  {
    if entries == [] then map[]
    else Associations(entries[..|entries| - 1])[entries[|entries| - 1].id := entries[|entries| - 1].isDefault]
  }

  /** The body after all rewrites, one descriptor after the other. */
  function RewriteAll(body: Str, descs: seq<Descriptor>): Str
    decreases |descs|
  {
    if descs == [] then body
    else RewriteAll(RewriteBody(body, descs[0].original, descs[0].filename, descs[0].caption), descs[1..])
  }
}
