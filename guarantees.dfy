/**
 * What one pass of the image loop guarantees (untitled.php:207-342): where the source comes
 * from, what happens to the file and the record it displaces, where the moved file ends up,
 * which scaled copies go and which scaled variant is made, and which errors end the request.
 *
 * Most facts need file and folder names to be single path segments (no `/`), which is what
 * the upload form produces; without that, two of the paths the loop builds could coincide.
 */
module Guarantees {
  import opened Text
  import opened Wrappers
  import opened Paths
  import opened Revisions
  import opened Rules
  import opened Reconcile

  /** The descriptor's names and the scope folders are single path segments. */
  predicate Segments(d: Descriptor, ctx: Context)
  {
    '/' !in d.original && '/' !in d.filename && '/' !in ctx.scopeFolder && '/' !in LocationFolder(ctx)
  }

  /** Every path outside `touched` is present in `after` exactly when in `before`, with the same bytes. */
  ghost predicate Kept(before: Files, after: Files, touched: set<Str>)
  {
    forall p :: p !in touched ==> (p in after <==> p in before) && (p in before ==> after[p] == before[p])
  }

  // ---------------------------------------------------------------- paths that never meet

  /**
   * The scaled copies, the upload thumbnail and a scaled rev name all live in other
   * directories than the staged upload, the located original, the destination and a rev name.
   */
  lemma ScaledApart(d: Descriptor, ctx: Context, name: Str)
    requires Segments(d, ctx) && '/' !in name
    ensures var far := StalePaths(d, ctx) + {ThumbPath(d), Join(ScaledDir(ctx.scopeFolder), name)};
      StagedPath(d) !in far && LocatedPath(d, ctx) !in far && Destination(d, ctx) !in far &&
      Join(BlogDir(ctx.scopeFolder), name) !in far
    ensures ThumbPath(d) !in StalePaths(d, ctx) && ThumbPath(d) != Join(ScaledDir(ctx.scopeFolder), name)
    ensures StagedPath(d) != Destination(d, ctx) && StagedPath(d) != Join(BlogDir(ctx.scopeFolder), name)
  {
    var f, g := ctx.scopeFolder, LocationFolder(ctx);
    DirsDistinct(f, g);
    DirsDistinct(g, f);
    DirsDistinct(f, f);
    DirsDistinct(g, g);
    FarFromScaled(StagingDir, d.original, f, g, d, name);
    FarFromScaled(BlogDir(g), d.original, f, g, d, name);
    FarFromScaled(BlogDir(f), d.filename, f, g, d, name);
    FarFromScaled(BlogDir(f), name, f, g, d, name);
    ThumbApart(f, g, d, name);
    SplitJoin(StagingDir, d.original);
    SplitJoin(BlogDir(f), d.filename);
    SplitJoin(BlogDir(f), name);
  }

  /** A path in a blog or staging directory is none of the scaled paths or the thumbnail. */
  lemma FarFromScaled(dir: Str, x: Str, f: Str, g: Str, d: Descriptor, name: Str)
    requires '/' !in x && '/' !in d.original && '/' !in d.filename && '/' !in name
    requires dir != ScaledDir(f) && dir != ScaledDir(g) && dir != ThumbsDir
    ensures Join(dir, x) !in {Join(ScaledDir(g), d.original), Join(ScaledDir(g), d.filename),
                              Join(ScaledDir(f), d.original), Join(ScaledDir(f), d.filename),
                              Join(ScaledDir(f), name), Join(ThumbsDir, d.original)}
  {
    SplitJoin(dir, x);
    SplitJoin(ScaledDir(g), d.original);
    SplitJoin(ScaledDir(g), d.filename);
    SplitJoin(ScaledDir(f), d.original);
    SplitJoin(ScaledDir(f), d.filename);
    SplitJoin(ScaledDir(f), name);
    SplitJoin(ThumbsDir, d.original);
  }

  /** The upload thumbnail is none of the scaled paths. */
  lemma ThumbApart(f: Str, g: Str, d: Descriptor, name: Str)
    requires '/' !in d.original && '/' !in d.filename && '/' !in name
    ensures Join(ThumbsDir, d.original) !in {Join(ScaledDir(g), d.original), Join(ScaledDir(g), d.filename),
                                             Join(ScaledDir(f), d.original), Join(ScaledDir(f), d.filename),
                                             Join(ScaledDir(f), name)}
  {
    DirsDistinct(f, f);
    DirsDistinct(g, g);
    SplitJoin(ThumbsDir, d.original);
    SplitJoin(ScaledDir(g), d.original);
    SplitJoin(ScaledDir(g), d.filename);
    SplitJoin(ScaledDir(f), d.original);
    SplitJoin(ScaledDir(f), d.filename);
    SplitJoin(ScaledDir(f), name);
  }

  /** A rev name keeps the occupant's name a single path segment. */
  lemma RevNameSegment(name: Str, stamp: nat)
    requires '/' !in name && RevName(name, stamp).Some?
    ensures '/' !in RevName(name, stamp).value
  {
    assert '/' !in "-rev.0123456789";
  }

  // ---------------------------------------------------------------- the end of a pass

  /**
   * The rest of a pass, once the file sits at its destination, on the files: it never fails;
   * the stale scaled copies are gone unless a collision was renamed; without a crop the scaled
   * copy is a copy of the destination; the upload thumbnail is gone; every other path is untouched.
   */
  lemma FinishFiles(stage: Stage, d: Descriptor, ctx: Context, crop: (Str, nat, nat) -> Str)
    requires WorkingIn(stage.store.images, stage.work) && Segments(d, ctx)
    requires Destination(d, ctx) in stage.store.files
    ensures var out := Finish(stage, d, ctx, crop);
      var before, after := stage.store.files, out.store.files;
      out.result.Ok? &&
      Kept(before, after, StalePaths(d, ctx) + {ThumbPath(d)}) &&
      ThumbPath(d) !in after &&
      (!stage.revised ==> forall p :: p in StalePaths(d, ctx) && p != ScaledDestination(d, ctx) ==> p !in after) &&
      (stage.revised ==> Kept(before, after, {ScaledDestination(d, ctx), ThumbPath(d)})) &&
      (!(d.scaledW > 0 && d.scaledH > 0) ==>
        ScaledDestination(d, ctx) in after && after[ScaledDestination(d, ctx)] == before[Destination(d, ctx)])
  {
    ScaledApart(d, ctx, d.filename);
  }

  /**
   * The rest of a pass, on the records: it never fails; the record is saved, in place or
   * appended, with the label, the sizes and the cropped location (or its old one); no other
   * record changes; the entry's flag is the `is_default` rule for the saved id.
   */
  lemma FinishRecord(stage: Stage, d: Descriptor, ctx: Context, crop: (Str, nat, nat) -> Str)
    requires WorkingIn(stage.store.images, stage.work) && Segments(d, ctx)
    requires Destination(d, ctx) in stage.store.files
    ensures Finish(stage, d, ctx, crop).result.Ok?
    ensures var out := Finish(stage, d, ctx, crop);
      var rec := stage.work.rec.(alt := d.caption, scaledWidth := d.scaledW, scaledHeight := d.scaledH);
      var id := out.result.value.id;
      (stage.work.id.Some? ==> id == stage.work.id.value && |out.store.images| == |stage.store.images|) &&
      (stage.work.id.None? ==> id == |stage.store.images| && |out.store.images| == id + 1) &&
      out.store.images[id] ==
        (if d.scaledW > 0 && d.scaledH > 0
         then rec.(scaledLocation := crop(Join(BlogDir(ctx.scopeFolder), rec.src), d.scaledW, d.scaledH))
         else rec) &&
      (forall i :: 0 <= i < |stage.store.images| && i != id ==> out.store.images[i] == stage.store.images[i]) &&
      out.result.value.isDefault == IsDefault(ctx.defaultImage, id, d.original, d.key)
  {
    ScaledApart(d, ctx, d.filename);
  }

  // ---------------------------------------------------------------- the collision branch

  /** The record holding the destination name in the post or one of its revisions, if any (untitled.php:247-253). */
  function Occupant(st: Store, d: Descriptor, ctx: Context): (o: Option<nat>)
    ensures o.Some? ==> o.value < |st.images| && st.images[o.value].src == d.filename
  {
    Lookup(st.images, OccupantQuery(d, ctx))
  }

  /** The collision branch stops, before touching anything, when no occupant record is found or its name has no dot. */
  lemma ClearStops(st: Store, work: Working, d: Descriptor, ctx: Context, now: nat)
    requires WorkingIn(st.images, work)
    ensures var r := ClearCollision(st, work, d, ctx, now);
      (Occupant(st, d, ctx).None? ==> r == Stop(st, OccupantRecordMissing(d.filename))) &&
      (Occupant(st, d, ctx).Some? && '.' !in d.filename ==> r == Stop(st, OccupantNameWithoutDot(d.filename)))
  {
  }

  /** `rename` touches its two paths only. */
  lemma MoveKept(f: Files, from: Str, to: Str)
    requires from in f
    ensures Kept(f, MoveFile(f, from, to).value, {from, to})
  {
  }

  /** The paths the collision branch moves between are all distinct from each other and from the source. */
  lemma RevPathsApart(d: Descriptor, ctx: Context, rev: Str)
    requires Segments(d, ctx) && '/' !in rev && rev != d.filename
    ensures var dest, scaled := Destination(d, ctx), ScaledDestination(d, ctx);
      var revPath, scaledRev := Join(BlogDir(ctx.scopeFolder), rev), Join(ScaledDir(ctx.scopeFolder), rev);
      var staged, located := StagedPath(d), LocatedPath(d, ctx);
      revPath != dest && scaledRev != dest && scaled != dest && scaledRev != scaled &&
      scaledRev != revPath && scaled != revPath &&
      revPath != staged && (rev != d.original ==> revPath != located) && scaled != staged && scaled != located &&
      scaledRev != staged && scaledRev != located
  {
    var f, g := ctx.scopeFolder, LocationFolder(ctx);
    DirsDistinct(f, g);
    DirsDistinct(g, f);
    DirsDistinct(f, f);
    JoinInjective(ScaledDir(f), rev, BlogDir(f), d.filename);
    JoinInjective(ScaledDir(f), d.filename, BlogDir(f), d.filename);
    JoinInjective(ScaledDir(f), rev, BlogDir(f), rev);
    JoinInjective(ScaledDir(f), d.filename, BlogDir(f), rev);
    JoinInjective(BlogDir(f), rev, StagingDir, d.original);
    JoinInjective(ScaledDir(f), d.filename, StagingDir, d.original);
    JoinInjective(ScaledDir(f), rev, StagingDir, d.original);
    JoinInjective(ScaledDir(f), d.filename, BlogDir(g), d.original);
    JoinInjective(ScaledDir(f), rev, BlogDir(g), d.original);
    JoinInjective(BlogDir(f), rev, BlogDir(f), d.filename);
    JoinInjective(BlogDir(f), rev, BlogDir(g), d.original);
    JoinInjective(BlogDir(f), rev, ScaledDir(f), d.filename);
    JoinInjective(ScaledDir(f), rev, ScaledDir(f), d.filename);
  }

  /**
   * The collision branch, when the destination is occupied, the source exists elsewhere and
   * an occupant with a dotted name is found: the occupant's file and its scaled copy (when
   * there is one) move to the rev name, the occupant record takes that name, the working
   * record is replaced by a fresh one if it was the occupant, and nothing else changes.
   */
  lemma ClearMoves(st: Store, work: Working, d: Descriptor, ctx: Context, now: nat, src: Str)
    requires WorkingIn(st.images, work) && Segments(d, ctx)
    requires Destination(d, ctx) in st.files && src in st.files && src != Destination(d, ctx)
    requires src == StagedPath(d) || src == LocatedPath(d, ctx)
    requires Occupant(st, d, ctx).Some? && '.' in d.filename
    ensures var r := ClearCollision(st, work, d, ctx, now);
      var o := Occupant(st, d, ctx).value;
      var rev := RevName(d.filename, now).value;
      var f := st.files;
      var dest, scaled := Destination(d, ctx), ScaledDestination(d, ctx);
      var revPath, scaledRev := Join(BlogDir(ctx.scopeFolder), rev), Join(ScaledDir(ctx.scopeFolder), rev);
      r.Continue? &&
      var g := r.stage.store.files;
      '/' !in rev && rev != d.filename &&
      r.stage.revised &&
      r.stage.work == (if work.id == Some(o) then Fresh else work) &&
      r.stage.store.images == st.images[o := st.images[o].(src := rev)] &&
      revPath in g && g[revPath] == f[dest] && dest !in g &&
      (scaled in f ==> scaledRev in g && g[scaledRev] == f[scaled] && scaled !in g) &&
      Kept(f, g, {dest, revPath} + (if scaled in f then {scaled, scaledRev} else {})) &&
      src in g && (rev != d.original ==> g[src] == f[src])
  {
    var rev := RevName(d.filename, now).value;
    RevNameSegment(d.filename, now);
    RevPathsApart(d, ctx, rev);
    ClearUnfold(st, work, d, ctx, now);
    RenamedFacts(st.files, Destination(d, ctx), Join(BlogDir(ctx.scopeFolder), rev),
                 ScaledDestination(d, ctx), Join(ScaledDir(ctx.scopeFolder), rev), src);
  }

  /** The files after the collision branch's moves: the occupant's file, then its scaled copy if there is one. */
  function Renamed(f: Files, dest: Str, revPath: Str, scaled: Str, scaledRev: Str): Files
    requires dest in f
  {
    var moved := (f - {dest})[revPath := f[dest]];
    if scaled in moved then (moved - {scaled})[scaledRev := moved[scaled]] else moved
  }

  /** The collision branch with an occupant whose name has a dot, written out. */
  lemma ClearUnfold(st: Store, work: Working, d: Descriptor, ctx: Context, now: nat)
    requires WorkingIn(st.images, work)
    requires Destination(d, ctx) in st.files && Occupant(st, d, ctx).Some? && RevName(d.filename, now).Some?
    ensures var o, rev := Occupant(st, d, ctx).value, RevName(d.filename, now).value;
      ClearCollision(st, work, d, ctx, now) ==
        Continue(Stage(Store(Renamed(st.files, Destination(d, ctx), Join(BlogDir(ctx.scopeFolder), rev),
                                     ScaledDestination(d, ctx), Join(ScaledDir(ctx.scopeFolder), rev)),
                             st.images[o := st.images[o].(src := rev)]),
                       if work.id == Some(o) then Fresh else work, true))
  {
  }

  /** What the two moves do to the files, when the four paths are distinct. */
  lemma RenamedFacts(f: Files, dest: Str, revPath: Str, scaled: Str, scaledRev: Str, src: Str)
    requires dest in f && src in f && src != dest && src != scaled && src != scaledRev
    requires revPath != dest && scaled != dest && scaledRev != dest
    requires scaledRev != scaled && scaledRev != revPath && scaled != revPath
    ensures var g := Renamed(f, dest, revPath, scaled, scaledRev);
      revPath in g && g[revPath] == f[dest] && dest !in g &&
      (scaled in f ==> scaledRev in g && g[scaledRev] == f[scaled] && scaled !in g) &&
      Kept(f, g, {dest, revPath} + (if scaled in f then {scaled, scaledRev} else {})) &&
      src in g && (src != revPath ==> g[src] == f[src])
  {
  }

  // ---------------------------------------------------------------- arriving at the destination

  /**
   * The first part of a pass, when it goes through: the destination exists; when the source
   * is elsewhere it is gone and the working record takes the final filename; without a
   * collision nothing but the source and the destination changes, and the destination holds
   * the source's bytes.
   */
  lemma ArriveFacts(st: Store, d: Descriptor, ctx: Context, now: nat)
    requires Segments(d, ctx)
    requires Arrive(st, d, ctx, now).Continue?
    ensures SourcePath(st.files, d, ctx).Some?
    ensures var r := Arrive(st, d, ctx, now).stage;
      var src, dest := SourcePath(st.files, d, ctx).value, Destination(d, ctx);
      var w := Resolve(st.images, d, ctx);
      var g := r.store.files;
      r.revised == Collides(st.files, src, d, ctx) &&
      dest in g &&
      (src == dest ==> r.store == st && r.work == w) &&
      (src != dest ==> src !in g && r.work.rec.src == d.filename) &&
      (!r.revised ==> r.store.images == st.images && Kept(st.files, g, {src, dest}) && g[dest] == st.files[src]) &&
      (!r.revised && src != dest ==> r.work == w.(rec := w.rec.(src := d.filename)))
  {
    var src := SourcePath(st.files, d, ctx).value;
    var w := Resolve(st.images, d, ctx);
    ScaledApart(d, ctx, d.filename);
    if src != Destination(d, ctx) && Destination(d, ctx) in st.files {
      ClearStops(st, w, d, ctx, now);
      ClearMoves(st, w, d, ctx, now, src);
    } else if src != Destination(d, ctx) {
      MoveKept(st.files, src, Destination(d, ctx));
    }
  }

  /**
   * The first part of a pass through the collision branch (untitled.php:244-283): the occupant
   * record takes the rev name, the occupant's file and scaled copy sit under the rev name, the
   * working record is a fresh one when it was the occupant, the source has moved to the
   * destination, and no path other than these changes.
   */
  lemma ArriveCollision(st: Store, d: Descriptor, ctx: Context, now: nat)
    requires Segments(d, ctx)
    requires Arrive(st, d, ctx, now).Continue?
    requires SourcePath(st.files, d, ctx).Some? && Collides(st.files, SourcePath(st.files, d, ctx).value, d, ctx)
    ensures Occupant(st, d, ctx).Some? && RevName(d.filename, now).Some?
    ensures var r := Arrive(st, d, ctx, now).stage;
      var src, dest, scaled := SourcePath(st.files, d, ctx).value, Destination(d, ctx), ScaledDestination(d, ctx);
      var o, rev := Occupant(st, d, ctx).value, RevName(d.filename, now).value;
      var revPath, scaledRev := Join(BlogDir(ctx.scopeFolder), rev), Join(ScaledDir(ctx.scopeFolder), rev);
      var w := Resolve(st.images, d, ctx);
      var base := if w.id == Some(o) then Fresh else w;
      var f, g := st.files, r.store.files;
      '/' !in rev && rev != d.filename &&
      r.work == base.(rec := base.rec.(src := d.filename)) &&
      r.store.images == st.images[o := st.images[o].(src := rev)] &&
      (rev != d.original ==> revPath in g && g[revPath] == f[dest] && g[dest] == f[src]) &&
      (scaled in f ==> scaledRev in g && g[scaledRev] == f[scaled] && scaled !in g) &&
      Kept(f, g, {src, dest, revPath, scaled, scaledRev})
  {
    var src := SourcePath(st.files, d, ctx).value;
    var w := Resolve(st.images, d, ctx);
    ClearStops(st, w, d, ctx, now);
    ClearMoves(st, w, d, ctx, now, src);
    var rev := RevName(d.filename, now).value;
    RevPathsApart(d, ctx, rev);
    var stage := ClearCollision(st, w, d, ctx, now).stage;
    MoveKept(stage.store.files, src, Destination(d, ctx));
  }

  // ---------------------------------------------------------------- one whole pass

  /**
   * Which passes fail, and how (untitled.php:225-283). A pass fails with "Image not found to
   * rename" exactly when neither the staged upload nor the located original exists; in the
   * collision branch it fails when no occupant record is found or the occupant's name has no
   * dot; after a move it fails when the `upload/` pattern built from the filename does not
   * compile. It fails in no other way, and a pass that fails before the move has changed nothing.
   */
  lemma StepOutcome(st: Store, d: Descriptor, ctx: Context, now: nat, crop: (Str, nat, nat) -> Str)
    requires Segments(d, ctx)
    ensures var out := Step(st, d, ctx, now, crop);
      var src := SourcePath(st.files, d, ctx);
      var collides := src.Some? && Collides(st.files, src.value, d, ctx);
      var cleared := !collides || (Occupant(st, d, ctx).Some? && '.' in d.filename);
      var moves := src.Some? && src.value != Destination(d, ctx);
      (out.result == Err(ImageNotFound(d.original)) <==> src.None?) &&
      (out.result == Err(OccupantRecordMissing(d.filename)) <==> collides && Occupant(st, d, ctx).None?) &&
      (out.result == Err(OccupantNameWithoutDot(d.filename)) <==>
        collides && Occupant(st, d, ctx).Some? && '.' !in d.filename) &&
      (out.result == Err(PatternRejected(d.filename)) <==> moves && cleared && !ctx.uploadPatternCompiles(d.filename)) &&
      (out.result.Ok? <==> src.Some? && cleared && (moves ==> ctx.uploadPatternCompiles(d.filename))) &&
      (out.result.Err? && !out.result.error.PatternRejected? ==> out.store == st)
  {
    var src := SourcePath(st.files, d, ctx);
    var work := Resolve(st.images, d, ctx);
    if src.Some? {
      var s, dest := src.value, Destination(d, ctx);
      if s == dest {
        FinishRecord(Stage(st, work, false), d, ctx, crop);
      } else if dest in st.files {
        ClearStops(st, work, d, ctx, now);
        if Occupant(st, d, ctx).Some? && '.' in d.filename {
          ClearMoves(st, work, d, ctx, now, s);
          var moved := MoveIn(ClearCollision(st, work, d, ctx, now).stage, s, d, ctx);
          if moved.Continue? {
            FinishRecord(moved.stage, d, ctx, crop);
          }
        }
      } else {
        var moved := MoveIn(Stage(st, work, false), s, d, ctx);
        if moved.Continue? {
          FinishRecord(moved.stage, d, ctx, crop);
        }
      }
    }
  }

  /**
   * A pass that fails at the `upload/` pattern (untitled.php:277) ends after the move: the
   * source is gone and the destination exists, but no record was added and the working
   * record was not saved.
   */
  lemma StepRejected(st: Store, d: Descriptor, ctx: Context, now: nat, crop: (Str, nat, nat) -> Str)
    requires Segments(d, ctx)
    requires Step(st, d, ctx, now, crop).result == Err(PatternRejected(d.filename))
    ensures SourcePath(st.files, d, ctx).Some? && SourcePath(st.files, d, ctx).value != Destination(d, ctx)
    ensures var out := Step(st, d, ctx, now, crop);
      |out.store.images| == |st.images| &&
      Destination(d, ctx) in out.store.files && SourcePath(st.files, d, ctx).value !in out.store.files
    ensures var w := Resolve(st.images, d, ctx);
      w.id.Some? && !Collides(st.files, SourcePath(st.files, d, ctx).value, d, ctx) ==>
        Step(st, d, ctx, now, crop).store.images[w.id.value] == st.images[w.id.value]
  {
    StepOutcome(st, d, ctx, now, crop);
    var s := SourcePath(st.files, d, ctx).value;
    var work := Resolve(st.images, d, ctx);
    if Collides(st.files, s, d, ctx) {
      ClearMoves(st, work, d, ctx, now, s);
    } else {
      ScaledApart(d, ctx, d.filename);
    }
  }

  /**
   * The main move (untitled.php:243, 275, 283, 286). When the source is not the destination,
   * afterwards the destination holds the source's former bytes, the source path is gone and
   * the saved record carries the final filename; when it is, the file stays where it is and
   * the record keeps its name. Either way the saved record carries the label as alt text.
   */
  lemma StepMoves(st: Store, d: Descriptor, ctx: Context, now: nat, crop: (Str, nat, nat) -> Str)
    requires Segments(d, ctx) && RevName(d.filename, now) != Some(d.original)
    requires Step(st, d, ctx, now, crop).result.Ok?
    ensures SourcePath(st.files, d, ctx).Some?
    ensures var out := Step(st, d, ctx, now, crop); out.result.value.id < |out.store.images|
    ensures var out := Step(st, d, ctx, now, crop);
      var src, dest := SourcePath(st.files, d, ctx).value, Destination(d, ctx);
      var rec := out.store.images[out.result.value.id];
      dest in out.store.files && out.store.files[dest] == st.files[src] &&
      rec.alt == d.caption &&
      (src != dest ==> src !in out.store.files && rec.src == d.filename) &&
      (src == dest ==> rec.src == Resolve(st.images, d, ctx).rec.src)
  {
    ArriveFacts(st, d, ctx, now);
    if Collides(st.files, SourcePath(st.files, d, ctx).value, d, ctx) {
      ArriveCollision(st, d, ctx, now);
    }
    FinishFiles(Arrive(st, d, ctx, now).stage, d, ctx, crop);
    FinishRecord(Arrive(st, d, ctx, now).stage, d, ctx, crop);
    ScaledApart(d, ctx, d.filename);
  }

  /**
   * The occupant survives a collision (untitled.php:244-272): its record takes the rev name,
   * which differs from the name it had; its file is found under the rev name with the bytes
   * the destination held; its scaled copy, if it had one, is under `scaled/` with the rev name;
   * and the incoming file is saved in another record, a new one when the record the
   * descriptor resolved to was the occupant itself.
   */
  lemma StepOccupant(st: Store, d: Descriptor, ctx: Context, now: nat, crop: (Str, nat, nat) -> Str)
    requires Segments(d, ctx) && RevName(d.filename, now) != Some(d.original)
    requires SourcePath(st.files, d, ctx).Some? && Collides(st.files, SourcePath(st.files, d, ctx).value, d, ctx)
    requires Step(st, d, ctx, now, crop).result.Ok?
    ensures Occupant(st, d, ctx).Some? && RevName(d.filename, now).Some?
    ensures var out := Step(st, d, ctx, now, crop);
      var o, rev := Occupant(st, d, ctx).value, RevName(d.filename, now).value;
      var revPath, scaledRev := Join(BlogDir(ctx.scopeFolder), rev), Join(ScaledDir(ctx.scopeFolder), rev);
      var dest, scaled := Destination(d, ctx), ScaledDestination(d, ctx);
      rev != d.filename &&
      o < |out.store.images| && out.store.images[o] == st.images[o].(src := rev) &&
      out.result.value.id != o &&
      (Resolve(st.images, d, ctx).id == Some(o) ==> out.result.value.id == |st.images|) &&
      revPath in out.store.files && out.store.files[revPath] == st.files[dest] &&
      (scaled in st.files ==> scaledRev in out.store.files && out.store.files[scaledRev] == st.files[scaled])
  {
    ArriveFacts(st, d, ctx, now);
    ArriveCollision(st, d, ctx, now);
    FinishFiles(Arrive(st, d, ctx, now).stage, d, ctx, crop);
    FinishRecord(Arrive(st, d, ctx, now).stage, d, ctx, crop);
    var rev := RevName(d.filename, now).value;
    ScaledApart(d, ctx, rev);
    RevPathsApart(d, ctx, rev);
  }

  /**
   * Stale scaled copies (untitled.php:271, 292-298): without a collision the scaled copies
   * named after the original and the final filename, in the old and the new scope, are gone
   * (the one at the new scope's final name is then made again, see StepScaled); after a
   * collision those copies are left as they were.
   */
  lemma StepStale(st: Store, d: Descriptor, ctx: Context, now: nat, crop: (Str, nat, nat) -> Str)
    requires Segments(d, ctx) && RevName(d.filename, now) != Some(d.original)
    requires Step(st, d, ctx, now, crop).result.Ok?
    ensures SourcePath(st.files, d, ctx).Some?
    ensures var out := Step(st, d, ctx, now, crop);
      var collides := Collides(st.files, SourcePath(st.files, d, ctx).value, d, ctx);
      (!collides ==> forall p :: p in StalePaths(d, ctx) && p != ScaledDestination(d, ctx) ==> p !in out.store.files) &&
      (collides ==> forall p :: p in StalePaths(d, ctx) && p != ScaledDestination(d, ctx) ==>
        (p in out.store.files <==> p in st.files))
  {
    ArriveFacts(st, d, ctx, now);
    if Collides(st.files, SourcePath(st.files, d, ctx).value, d, ctx) {
      StaleKept(st, d, ctx, now, crop);
    } else {
      var a := Arrive(st, d, ctx, now);
      assert Step(st, d, ctx, now, crop) == Finish(a.stage, d, ctx, crop);
      FinishFiles(a.stage, d, ctx, crop);
    }
  }

  /** After a collision the stale scaled copies other than the one at the final name are as they were. */
  lemma StaleKept(st: Store, d: Descriptor, ctx: Context, now: nat, crop: (Str, nat, nat) -> Str)
    requires Segments(d, ctx) && RevName(d.filename, now) != Some(d.original)
    requires Step(st, d, ctx, now, crop).result.Ok?
    requires SourcePath(st.files, d, ctx).Some? && Collides(st.files, SourcePath(st.files, d, ctx).value, d, ctx)
    ensures forall p :: p in StalePaths(d, ctx) && p != ScaledDestination(d, ctx) ==>
      (p in Step(st, d, ctx, now, crop).store.files <==> p in st.files)
  {
    var a := Arrive(st, d, ctx, now);
    var out := Step(st, d, ctx, now, crop);
    assert out == Finish(a.stage, d, ctx, crop);
    ArriveFacts(st, d, ctx, now);
    ArriveCollision(st, d, ctx, now);
    FinishFiles(a.stage, d, ctx, crop);
    var src, rev := SourcePath(st.files, d, ctx).value, RevName(d.filename, now).value;
    StaleThrough(st.files, a.stage.store.files, out.store.files, d, ctx, src, rev);
  }

  /**
   * A stale scaled copy other than the one at the final name survives the collision branch's
   * moves and the end of a pass that deletes nothing stale.
   */
  lemma StaleThrough(f: Files, g: Files, h: Files, d: Descriptor, ctx: Context, src: Str, rev: Str)
    requires Segments(d, ctx) && '/' !in rev && rev != d.filename && rev != d.original
    requires src == StagedPath(d) || src == LocatedPath(d, ctx)
    requires Kept(f, g, {src, Destination(d, ctx), Join(BlogDir(ctx.scopeFolder), rev),
                         ScaledDestination(d, ctx), Join(ScaledDir(ctx.scopeFolder), rev)})
    requires Kept(g, h, {ScaledDestination(d, ctx), ThumbPath(d)})
    ensures forall p :: p in StalePaths(d, ctx) && p != ScaledDestination(d, ctx) ==> (p in h <==> p in f)
  {
    ScaledApart(d, ctx, rev);
    StaleApartFromRev(d, ctx, rev);
  }

  /** The scaled rev path is none of the other stale scaled paths. */
  lemma StaleApartFromRev(d: Descriptor, ctx: Context, rev: Str)
    requires Segments(d, ctx) && '/' !in rev && rev != d.filename && rev != d.original
    ensures Join(ScaledDir(ctx.scopeFolder), rev) !in StalePaths(d, ctx)
  {
    var f, g := ctx.scopeFolder, LocationFolder(ctx);
    DirsDistinct(f, g);
    JoinInjective(ScaledDir(f), rev, ScaledDir(g), d.original);
    JoinInjective(ScaledDir(f), rev, ScaledDir(g), d.filename);
    JoinInjective(ScaledDir(f), rev, ScaledDir(f), d.original);
    JoinInjective(ScaledDir(f), rev, ScaledDir(f), d.filename);
  }

  /**
   * The scaled variant (untitled.php:289-290, 300-312): the record stores the requested sizes;
   * with both sizes non-zero its scaled location is the crop of the file under its saved name;
   * otherwise `scaled/<filename>` is a byte-for-byte copy of the file at the destination.
   */
  lemma StepScaled(st: Store, d: Descriptor, ctx: Context, now: nat, crop: (Str, nat, nat) -> Str)
    requires Segments(d, ctx)
    requires Step(st, d, ctx, now, crop).result.Ok?
    ensures var out := Step(st, d, ctx, now, crop); out.result.value.id < |out.store.images|
    ensures var out := Step(st, d, ctx, now, crop);
      var rec := out.store.images[out.result.value.id];
      var dest, scaled := Destination(d, ctx), ScaledDestination(d, ctx);
      rec.scaledWidth == d.scaledW && rec.scaledHeight == d.scaledH &&
      (d.scaledW > 0 && d.scaledH > 0 ==>
        rec.scaledLocation == crop(Join(BlogDir(ctx.scopeFolder), rec.src), d.scaledW, d.scaledH)) &&
      (!(d.scaledW > 0 && d.scaledH > 0) ==>
        scaled in out.store.files && dest in out.store.files && out.store.files[scaled] == out.store.files[dest])
  {
    ArriveFacts(st, d, ctx, now);
    FinishFiles(Arrive(st, d, ctx, now).stage, d, ctx, crop);
    FinishRecord(Arrive(st, d, ctx, now).stage, d, ctx, crop);
    ScaledApart(d, ctx, d.filename);
  }

  /**
   * The record a pass saves and the association entry it yields (untitled.php:210-223, 255-257,
   * 314-321): the record the descriptor resolved to, or a new one when there was none or it was
   * the occupant; the entry's flag is the `is_default` rule for the saved id; no record but the
   * saved one and the occupant changes.
   */
  lemma StepRecord(st: Store, d: Descriptor, ctx: Context, now: nat, crop: (Str, nat, nat) -> Str)
    requires Segments(d, ctx)
    requires Step(st, d, ctx, now, crop).result.Ok?
    ensures SourcePath(st.files, d, ctx).Some?
    ensures var out := Step(st, d, ctx, now, crop);
      var e, w := out.result.value, Resolve(st.images, d, ctx);
      var collides := Collides(st.files, SourcePath(st.files, d, ctx).value, d, ctx);
      var isNew := w.id.None? || (collides && Occupant(st, d, ctx) == w.id);
      e.isDefault == IsDefault(ctx.defaultImage, e.id, d.original, d.key) &&
      (isNew ==> e.id == |st.images| && |out.store.images| == |st.images| + 1) &&
      (!isNew ==> e.id == w.id.value && |out.store.images| == |st.images|) &&
      (forall i :: 0 <= i < |st.images| && i != e.id && !(collides && Occupant(st, d, ctx) == Some(i)) ==>
        out.store.images[i] == st.images[i])
  {
    var a := Arrive(st, d, ctx, now);
    var out := Step(st, d, ctx, now, crop);
    assert out == Finish(a.stage, d, ctx, crop);
    ArriveFacts(st, d, ctx, now);
    var w := Resolve(st.images, d, ctx);
    var occ := None;
    if Collides(st.files, SourcePath(st.files, d, ctx).value, d, ctx) {
      ArriveCollision(st, d, ctx, now);
      occ := Occupant(st, d, ctx);
    }
    FinishRecord(a.stage, d, ctx, crop);
    SavedThrough(st.images, a.stage.store.images, out.store.images, w.id, a.stage.work.id, occ, out.result.value.id);
  }

  /**
   * The record table through a pass: the collision branch changes at most the occupant, the
   * working id is dropped when it is the occupant, and the save touches only the saved id.
   */
  lemma SavedThrough(before: seq<ImageRecord>, mid: seq<ImageRecord>, after: seq<ImageRecord>,
                     resolved: Option<nat>, working: Option<nat>, occ: Option<nat>, id: nat)
    requires |mid| == |before|
    requires forall i :: 0 <= i < |before| && occ != Some(i) ==> mid[i] == before[i]
    requires working == (if occ.Some? && resolved == occ then None else resolved)
    requires working.Some? ==> id == working.value && |after| == |mid|
    requires working.None? ==> id == |mid| && |after| == id + 1
    requires forall i :: 0 <= i < |mid| && i != id ==> after[i] == mid[i]
    ensures var isNew := resolved.None? || (occ.Some? && occ == resolved);
      (isNew ==> id == |before| && |after| == |before| + 1) &&
      (!isNew ==> id == resolved.value && |after| == |before|) &&
      (forall i :: 0 <= i < |before| && i != id && occ != Some(i) ==> after[i] == before[i])
  {
  }

  // ---------------------------------------------------------------- the whole loop

  /**
   * A request that goes through has rewritten the body once per descriptor, in order, and
   * yielded one association entry per descriptor, in order.
   */
  lemma {:induction false} RunProgress(st: Store, descs: seq<Descriptor>, clock: seq<nat>, ctx: Context,
                                      crop: (Str, nat, nat) -> Str, acc: Progress)
    requires |clock| == |descs|
    ensures var out := Run(st, descs, clock, ctx, crop, acc);
      out.result.Ok? ==>
        out.result.value.body == RewriteAll(acc.body, descs) &&
        |out.result.value.entries| == |acc.entries| + |descs| && acc.entries <= out.result.value.entries
    decreases |descs|
  {
    if descs != [] {
      var out := Step(st, descs[0], ctx, clock[0], crop);
      if out.result.Ok? {
        var next := Advance(acc, descs[0], out.result.value);
        RunProgress(out.store, descs[1..], clock[1..], ctx, crop, next);
      }
    }
  }

  /** Every association entry a request that goes through adds names a record that exists at the end. */
  lemma {:induction false} RunEntriesExist(st: Store, descs: seq<Descriptor>, clock: seq<nat>, ctx: Context,
                                          crop: (Str, nat, nat) -> Str, acc: Progress)
    requires |clock| == |descs|
    ensures var out := Run(st, descs, clock, ctx, crop, acc);
      out.result.Ok? ==>
        acc.entries <= out.result.value.entries &&
        forall k :: |acc.entries| <= k < |out.result.value.entries| ==> out.result.value.entries[k].id < |out.store.images|
    decreases |descs|
  {
    if descs != [] {
      var out := Step(st, descs[0], ctx, clock[0], crop);
      if out.result.Ok? {
        var next := Advance(acc, descs[0], out.result.value);
        RunEntriesExist(out.store, descs[1..], clock[1..], ctx, crop, next);
        var final := Run(out.store, descs[1..], clock[1..], ctx, crop, next);
        if final.result.Ok? {
          assert final.result.value.entries[|acc.entries|] == out.result.value;
        }
      }
    }
  }

  /** Some descriptor has this filename, and one of the two patterns built from it does not compile. */
  ghost predicate RejectedName(descs: seq<Descriptor>, ctx: Context, name: Str)
  {
    exists k :: 0 <= k < |descs| && descs[k].filename == name &&
      !(ctx.uploadPatternCompiles(descs[k].filename) && ctx.altPatternCompiles(descs[k].filename))
  }

  /**
   * With names that are single path segments, a request fails only because an image was not
   * found, an occupant record was missing, an occupant's name had no dot, or the regex engine
   * rejected a pattern built from a descriptor's filename; a move or copy of a missing file
   * never happens, and `Thumbs::crop`, being a function, never fails.
   */
  lemma {:induction false} RunErrors(st: Store, descs: seq<Descriptor>, clock: seq<nat>, ctx: Context,
                                    crop: (Str, nat, nat) -> Str, acc: Progress)
    requires |clock| == |descs|
    requires forall k :: 0 <= k < |descs| ==> Segments(descs[k], ctx)
    ensures var out := Run(st, descs, clock, ctx, crop, acc);
      out.result.Err? ==>
        out.result.error.ImageNotFound? || out.result.error.OccupantRecordMissing? ||
        out.result.error.OccupantNameWithoutDot? ||
        (out.result.error.PatternRejected? && RejectedName(descs, ctx, out.result.error.filename))
    decreases |descs|
  {
    if descs != [] {
      var out := Step(st, descs[0], ctx, clock[0], crop);
      StepOutcome(st, descs[0], ctx, clock[0], crop);
      if out.result.Ok? && ctx.altPatternCompiles(descs[0].filename) {
        var rest := Run(out.store, descs[1..], clock[1..], ctx, crop, Advance(acc, descs[0], out.result.value));
        RunErrors(out.store, descs[1..], clock[1..], ctx, crop, Advance(acc, descs[0], out.result.value));
        if rest.result.Err? && rest.result.error.PatternRejected? {
          var k :| 0 <= k < |descs[1..]| && descs[1..][k].filename == rest.result.error.filename &&
            !(ctx.uploadPatternCompiles(descs[1..][k].filename) && ctx.altPatternCompiles(descs[1..][k].filename));
          assert descs[k + 1] == descs[1..][k];
        }
      }
    }
  }

  /** Entry k is the last one for its id. */
  predicate LastFor(entries: seq<Entry>, k: nat)
  {
    k < |entries| && forall k' :: k < k' < |entries| ==> entries[k'].id != entries[k].id
  }

  /** The association map (untitled.php:317-321) holds an id exactly when some entry has it. */
  lemma {:induction false} AssociationsDomain(entries: seq<Entry>, id: nat)
    ensures id in Associations(entries) <==> exists k :: 0 <= k < |entries| && entries[k].id == id
    decreases |entries|
  {
    if entries != [] {
      var init := entries[..|entries| - 1];
      AssociationsDomain(init, id);
      if id in Associations(init) {
        var k :| 0 <= k < |init| && init[k].id == id;
        assert entries[k].id == id;
      }
      if exists k :: 0 <= k < |entries| && entries[k].id == id {
        var k :| 0 <= k < |entries| && entries[k].id == id;
        if k < |init| {
          assert init[k].id == id;
        }
      }
    }
  }

  /** In the association map (untitled.php:317-321) the flag of the last entry for an id wins. */
  lemma {:induction false} AssociationsLast(entries: seq<Entry>, k: nat)
    requires LastFor(entries, k)
    ensures entries[k].id in Associations(entries) && Associations(entries)[entries[k].id] == entries[k].isDefault
    decreases |entries|
  {
    var init := entries[..|entries| - 1];
    if k < |init| {
      assert init[k] == entries[k];
      assert entries[|entries| - 1].id != entries[k].id;
      assert LastFor(init, k);
      AssociationsLast(init, k);
    }
  }
}
