/**
 * The name an occupant image is moved to when a new image takes its filename
 * (untitled.php:260-261): `explode('.', name)` gives parts[0] and parts[1], and the
 * new name is `parts[0] . '-rev' . timestamp . '.' . parts[1]`.
 */
module Revisions {
  import opened Text
  import opened Wrappers

  /** The text before the first `.` (all of s if it has none): element 0 of `explode('.', s)`. */
  function UpToDot(s: Str): (r: Str)
    ensures r <= s && '.' !in r
    ensures |r| < |s| ==> s[|r|] == '.'
    decreases |s|
  {
    if s == [] || s[0] == '.' then [] else [s[0]] + UpToDot(s[1..])
  }

  /**
   * None when the name has no `.`: then `$oldImageParts[1]` is undefined and PHP raises.
   * Otherwise parts[0] + "-rev" + stamp + "." + parts[1]; parts after the second dot are dropped.
   */
  function RevName(name: Str, stamp: nat): (r: Option<Str>)
    ensures r.Some? <==> '.' in name
    ensures r.Some? ==> r.value != name
    ensures r.Some? ==> forall c :: c in r.value ==> c in name || c in "-rev.0123456789"
  {
    var stem := UpToDot(name);
    if |stem| == |name| then
      assert stem == name;
      None
    else
      var ext := UpToDot(name[|stem| + 1..]);
      var digits := DecimalString(stamp);
      var renamed := stem + "-rev" + digits + "." + ext;
      assert renamed[|stem|] == '-' && name[|stem|] == '.';
      DigitChars(digits);
      TailChars(name, |stem| + 1);
      Some(renamed)
  }

  /** A decimal rendering is made of decimal digits. */
  lemma DigitChars(digits: Str)
    requires forall i :: 0 <= i < |digits| ==> '0' <= digits[i] <= '9'
    ensures forall c :: c in digits ==> c in "0123456789"
  {
    forall c | c in digits ensures c in "0123456789" {
      var k :| 0 <= k < |digits| && digits[k] == c;
      assert "0123456789"[c as int - '0' as int] == c;
    }
  }

  /** The text up to the first dot of a tail of a name is made of the name's characters. */
  lemma TailChars(name: Str, from: nat)
    requires from <= |name|
    ensures forall c :: c in UpToDot(name[from..]) ==> c in name
  {
    var ext := UpToDot(name[from..]);
    forall c | c in ext ensures c in name {
      var k :| 0 <= k < |ext| && ext[k] == c;
      assert name[from + k] == c;
    }
  }

  lemma {:induction false} UpToDotOf(a: Str, b: Str)
    requires '.' !in a
    ensures UpToDot(a + "." + b) == a
    decreases |a|
  {
    if a != [] {
      assert (a + "." + b)[1..] == a[1..] + "." + b;
      UpToDotOf(a[1..], b);
    }
  }

  /** A `<stem>.<ext>` name becomes `<stem>-rev<stamp>.<ext>`. */
  lemma RevNameOfStemAndExtension(stem: Str, ext: Str, stamp: nat)
    requires '.' !in stem && '.' !in ext
    ensures RevName(stem + "." + ext, stamp) == Some(stem + "-rev" + DecimalString(stamp) + "." + ext)
  {
    var name := stem + "." + ext;
    UpToDotOf(stem, ext);
    assert name[|stem| + 1..] == ext;
    assert UpToDot(ext) == ext by { UpToDotOf(ext, []); assert ext + "." + [] == ext + "."; }
  }

  /** With two dots, whatever follows the second one is lost: `a.b.c` becomes `a-rev<stamp>.b`. */
  lemma RevNameDropsLaterParts(stem: Str, ext: Str, more: Str, stamp: nat)
    requires '.' !in stem && '.' !in ext
    ensures RevName(stem + "." + ext + "." + more, stamp) == Some(stem + "-rev" + DecimalString(stamp) + "." + ext)
  {
    var name := stem + "." + ext + "." + more;
    assert name == stem + "." + (ext + "." + more);
    UpToDotOf(stem, ext + "." + more);
    assert name[|stem| + 1..] == ext + "." + more;
    UpToDotOf(ext, more);
  }
}
