/** The small decisions of the update beside the image loop. */
module Rules {
  import opened Text
  import opened Wrappers

  /**
   * The `is_default` flag of an image association (untitled.php:317-321): the requested
   * default image equals the record's id, or occurs anywhere in the original filename
   * (`strpos(...) !== false`), or equals the descriptor's key in the request.
   * The id comparison is PHP's `==` between a request string and an integer, taken here
   * on the id's decimal form.
   */
  predicate IsDefault(defaultImage: Str, id: nat, original: Str, key: Str)
  {
    defaultImage == DecimalString(id) || Contains(original, defaultImage) || key == defaultImage
  }

  /** The three ways an image becomes the default, the substring test read as an occurrence. */
  lemma IsDefaultExactly(defaultImage: Str, id: nat, original: Str, key: Str)
    ensures IsDefault(defaultImage, id, original, key) <==>
      defaultImage == DecimalString(id) || key == defaultImage || exists i :: OccursAt(original, defaultImage, i)
  {
    ContainsOccurrence(original, defaultImage);
  }

  /**
   * The substring test selects images that were not asked for: asking for image 12 also
   * marks image 3 as default when its original filename is `photo12.jpg`.
   */
  lemma SubstringSelectsOtherImage()
    ensures IsDefault("12", 3, "photo12.jpg", "0")
  {
    assert OccursAt("photo12.jpg", "12", 5);
    ContainsOccurrence("photo12.jpg", "12");
  }

  /** With no default image requested (the empty string), every image is marked default. */
  lemma EmptyRequestMarksEveryImage(id: nat, original: Str, key: Str)
    ensures IsDefault("", id, original, key)
  {
    assert OccursAt(original, "", 0);
    ContainsOccurrence(original, "");
  }

  /**
   * The slug stored on the post (untitled.php:347-351): the requested slug when no other
   * post has it, else the requested slug, a dash and the slugged current date-time.
   */
  function ChooseSlug(requested: Str, otherSlugs: set<Str>, stamp: Str): (slug: Str)
    ensures slug == requested <==> requested !in otherSlugs
    ensures requested <= slug
    ensures slug != requested ==> slug[|requested|] == '-' && slug[|requested| + 1..] == stamp
  {
    if requested !in otherSlugs then requested else requested + "-" + stamp
  }

  /** PHP's falsy strings: `""` (and null, which the model writes as `""`) and `"0"`. */
  predicate Falsy(s: Str)
  {
    s == "" || s == "0"
  }

  /**
   * The status stored on the post (untitled.php:188-192): the requested one when the user
   * may change statuses, else the current one, or `pending` when the current one is falsy.
   */
  function ChooseStatus(mayModify: bool, requested: Str, current: Str): (status: Str)
    ensures mayModify ==> status == requested
    ensures !mayModify ==> !Falsy(status)
    ensures !mayModify ==> (status == current <==> !Falsy(current))
    ensures !mayModify && status != current ==> status == "pending"
  {
    if mayModify then requested else if !Falsy(current) then current else "pending"
  }

  /**
   * Whether the update records a redirect from the old address (untitled.php:353-356): the slug
   * or the scope changed from a stored (non-null) value, the request asks for a redirect, and
   * the post is being published or was published before.
   */
  predicate RecordsRedirect(oldSlug: Option<Str>, newSlug: Str, oldScope: Option<nat>, newScope: nat,
                            makeRedirect: bool, newStatus: Str, oldStatus: Str)
  {
    && ((oldSlug.Some? && oldSlug.value != newSlug) || (oldScope.Some? && oldScope.value != newScope))
    && makeRedirect
    && (newStatus == "publish" || oldStatus == "publish")
  }

  /**
   * For a request that keeps the stored slug, a post being published that asks for a redirect
   * gets one exactly when that slug is taken by another post (so the stored slug is replaced)
   * or the post moves to another scope: keeping a free slug in the same scope records none.
   */
  lemma RedirectWhenSlugTaken(slug: Str, otherSlugs: set<Str>, stamp: Str, scope: nat, newScope: nat, oldStatus: Str)
    ensures RecordsRedirect(Some(slug), ChooseSlug(slug, otherSlugs, stamp), Some(scope), newScope, true, "publish", oldStatus)
      <==> slug in otherSlugs || scope != newScope
  {
  }
}
