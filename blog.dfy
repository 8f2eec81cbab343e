/**
 * `BlogController::update` (untitled.php:179-370) as it changes things: one object holds the
 * public directory, the images table and the post as last saved, and the update works on them
 * step by step. Each method is proved to do what the functions of Reconcile say, so the
 * lemmas of Guarantees hold of it.
 */
module Blog {
  import opened Text
  import opened Wrappers
  import opened Paths
  import opened Revisions
  import opened Rules
  import Rewrite
  import opened Reconcile

  class Site {
    /** The public directory: file contents by path. */
    var files: Files
    /** The images table; an image's id is its position. */
    var images: seq<ImageRecord>
    /** The post as last saved: its rendered body, slug, status and image associations. */
    var contentHtml: Str
    var slug: Str
    var status: Str
    var associations: map<nat, bool>

    constructor (files: Files, images: seq<ImageRecord>, contentHtml: Str, slug: Str, status: Str,
                 associations: map<nat, bool>)
      ensures this.files == files && this.images == images
      ensures this.contentHtml == contentHtml && this.slug == slug && this.status == status
      ensures this.associations == associations
    {
      this.files := files;
      this.images := images;
      this.contentHtml := contentHtml;
      this.slug := slug;
      this.status := status;
      this.associations := associations;
    }

    /** The files and the images table, as the functions of Reconcile see them. */
    function Snapshot(): Store
      reads this
    {
      Store(files, images)
    }

    /** `File::move`: the target is replaced; moving a missing file fails and changes nothing. */
    method Move(from: Str, to: Str) returns (ok: bool)
      modifies this`files
      ensures ok == (from in old(files))
      ensures ok ==> files == (old(files) - {from})[to := old(files)[from]]
      ensures !ok ==> files == old(files)
    {
      ok := from in files;
      if ok {
        files := (files - {from})[to := files[from]];
      }
    }

    /** `copy`: the target gets the source's bytes; copying a missing file fails and changes nothing. */
    method Copy(from: Str, to: Str) returns (ok: bool)
      modifies this`files
      ensures ok == (from in old(files))
      ensures ok ==> files == old(files)[to := old(files)[from]]
      ensures !ok ==> files == old(files)
    {
      ok := from in files;
      if ok {
        files := files[to := files[from]];
      }
    }

    /** `File::delete`: a missing file is not an error. */
    method Delete(path: Str)
      modifies this`files
      ensures files == old(files) - {path}
    {
      files := files - {path};
    }

    /**
     * The collision branch (untitled.php:247-272): find the occupant record, drop the working
     * record if it is the occupant, move the occupant's file and scaled copy to the rev name and
     * point the occupant record at it.
     */
    method ClearCollisionAt(work: Working, d: Descriptor, ctx: Context, now: nat)
      returns (next: Working, err: Option<Error>)
      requires WorkingIn(images, work)
      modifies this`files, this`images
      ensures var r := ClearCollision(old(Snapshot()), work, d, ctx, now);
        (r.Stop? ==> err == Some(r.error) && Snapshot() == r.at) &&
        (r.Continue? ==> err == None && Snapshot() == r.stage.store && next == r.stage.work)
    {
      next := work;
      var occupant := Lookup(images, OccupantQuery(d, ctx));
      if occupant.None? {
        return next, Some(OccupantRecordMissing(d.filename));
      }
      var o := occupant.value;
      if work.id == Some(o) {
        next := Fresh;
      }
      var rev := RevName(images[o].src, now);
      if rev.None? {
        return next, Some(OccupantNameWithoutDot(images[o].src));
      }
      var dest := Destination(d, ctx);
      var ok := Move(dest, Join(BlogDir(ctx.scopeFolder), rev.value));
      if !ok {
        return next, Some(MoveFailed(dest));
      }
      var scaled := ScaledDestination(d, ctx);
      if scaled in files {
        ok := Move(scaled, Join(ScaledDir(ctx.scopeFolder), rev.value));
        if !ok {
          return next, Some(MoveFailed(scaled));
        }
      }
      images := images[o := images[o].(src := rev.value)];
      err := None;
    }

    /**
     * The rest of a pass (untitled.php:286-321): set the label and sizes, delete stale scaled
     * copies unless a collision was renamed, crop or copy the scaled variant, save the record,
     * delete the upload thumbnail and yield the association entry.
     */
    method FinishAt(work: Working, revised: bool, d: Descriptor, ctx: Context, crop: (Str, nat, nat) -> Str)
      returns (result: Result<Entry, Error>)
      requires WorkingIn(images, work)
      modifies this`files, this`images
      ensures StepOut(Snapshot(), result) == Finish(Stage(old(Snapshot()), work, revised), d, ctx, crop)
    {
      var rec := work.rec.(alt := d.caption, scaledWidth := d.scaledW, scaledHeight := d.scaledH);
      if !revised {
        ghost var before := files;
        Delete(Join(ScaledDir(LocationFolder(ctx)), d.original));
        Delete(Join(ScaledDir(LocationFolder(ctx)), d.filename));
        Delete(Join(ScaledDir(ctx.scopeFolder), d.original));
        Delete(ScaledDestination(d, ctx));
        assert files == before - StalePaths(d, ctx);
      }
      if d.scaledW > 0 && d.scaledH > 0 {
        rec := rec.(scaledLocation := crop(Join(BlogDir(ctx.scopeFolder), rec.src), d.scaledW, d.scaledH));
      } else {
        var ok := Copy(Destination(d, ctx), ScaledDestination(d, ctx));
        if !ok {
          return Err(CopyFailed(Destination(d, ctx)));
        }
      }
      var saved: nat;
      if work.id.Some? {
        saved := work.id.value;
        images := images[saved := rec];
      } else {
        saved := |images|;
        images := images + [rec];
      }
      Delete(ThumbPath(d));
      result := Ok(Entry(saved, IsDefault(ctx.defaultImage, saved, d.original, d.key)));
    }

    /**
     * One pass of the image loop (untitled.php:210-321), in the order the source does it:
     * resolve the record, find the source, clear a collision, move the file in and rewrite the
     * `upload/` references (which fails when the filename's pattern does not compile), then the rest.
     */
    method ProcessImage(d: Descriptor, ctx: Context, now: nat, crop: (Str, nat, nat) -> Str)
      returns (result: Result<Entry, Error>)
      modifies this`files, this`images
      ensures StepOut(Snapshot(), result) == Step(old(Snapshot()), d, ctx, now, crop)
    {
      var work := Resolve(images, d, ctx);
      var src := StagedPath(d);
      if src !in files {
        src := LocatedPath(d, ctx);
      }
      if src !in files {
        return Err(ImageNotFound(d.original));
      }
      var revised := false;
      var dest := Destination(d, ctx);
      if src != dest {
        if dest in files {
          var err;
          work, err := ClearCollisionAt(work, d, ctx, now);
          if err.Some? {
            return Err(err.value);
          }
          revised := true;
        }
        var ok := Move(src, dest);
        if !ok {
          return Err(MoveFailed(src));
        }
        if !ctx.uploadPatternCompiles(d.filename) {
          return Err(PatternRejected(d.filename));
        }
        work := work.(rec := work.rec.(src := d.filename));
      }
      result := FinishAt(work, revised, d, ctx, crop);
    }

    /**
     * The update (untitled.php:179-370) from the body the HTML converter produced: every
     * descriptor is processed in turn, the body rewritten after each and the association map
     * filled in; the alt-text rewrite fails when the filename's pattern does not compile. The
     * first error ends the request: files and records changed so far stay
     * changed, and the post is not saved. Otherwise the post is saved with the rewritten body,
     * the chosen slug and status, and its associations are replaced by the map.
     */
    method Update(descs: seq<Descriptor>, clock: seq<nat>, ctx: Context, crop: (Str, nat, nat) -> Str,
                  initialBody: Str, mayModifyStatus: bool, requestedStatus: Str,
                  requestedSlug: Str, otherSlugs: set<Str>, slugStamp: Str)
      returns (result: Result<(), Error>)
      requires |clock| == |descs|
      modifies this
      ensures var out := Run(old(Snapshot()), descs, clock, ctx, crop, Progress(initialBody, []));
        Snapshot() == out.store &&
        (out.result.Err? ==>
          result == Err(out.result.error) &&
          contentHtml == old(contentHtml) && slug == old(slug) && status == old(status) &&
          associations == old(associations)) &&
        (out.result.Ok? ==>
          result == Ok(()) &&
          contentHtml == out.result.value.body &&
          slug == ChooseSlug(requestedSlug, otherSlugs, slugStamp) &&
          status == ChooseStatus(mayModifyStatus, requestedStatus, old(status)) &&
          associations == Associations(out.result.value.entries))
    {
      var newStatus := ChooseStatus(mayModifyStatus, requestedStatus, status);
      var body := initialBody;
      var ids: map<nat, bool> := map[];
      ghost var entries: seq<Entry> := [];
      ghost var out := Run(Snapshot(), descs, clock, ctx, crop, Progress(initialBody, []));
      var i := 0;
      while i < |descs|
        invariant 0 <= i <= |descs|
        invariant out == Run(Snapshot(), descs[i..], clock[i..], ctx, crop, Progress(body, entries))
        invariant ids == Associations(entries)
        invariant contentHtml == old(contentHtml) && slug == old(slug) && status == old(status)
        invariant associations == old(associations)
      {
        var d := descs[i];
        var r := ProcessImage(d, ctx, clock[i], crop);
        assert descs[i..][0] == d && descs[i..][1..] == descs[i + 1..] && clock[i..][1..] == clock[i + 1..];
        if r.Err? {
          return Err(r.error);
        }
        ids := ids[r.value.id := r.value.isDefault];
        assert (entries + [r.value])[..|entries|] == entries;
        entries := entries + [r.value];
        if d.original != d.filename {
          body := Rewrite.ReplaceAll(body, Rewrite.Compile(d.original), d.filename);
        }
        if !ctx.altPatternCompiles(d.filename) {
          return Err(PatternRejected(d.filename));
        }
        body := Rewrite.ReplaceAlt(body, d.filename, d.caption);
        i := i + 1;
      }
      contentHtml := body;
      slug := ChooseSlug(requestedSlug, otherSlugs, slugStamp);
      status := newStatus;
      associations := ids;
      result := Ok(());
    }
  }
}
