/**
 * `allowed_file`, shared by the web variants, which differ only in the
 * allow-list it is given.
 */
module Extensions {
  import opened Strings

  /** `'.' in filename and filename.rsplit('.', 1)[1].lower() in allowed` */
  predicate AllowedFile(filename: string, allowed: set<string>)
    ensures AllowedFile(filename, allowed) ==> exists i: nat, ext :: ext in allowed && LastExtensionIs(filename, i, ext)
  {
    '.' in filename &&
    var i := LastIndexOf(filename, '.').value;
    assert LastExtensionIs(filename, i, Lower(filename[i + 1..]));
    Lower(filename[i + 1..]) in allowed
  }

  /** The text after the last dot of a name. */
  predicate LastExtensionIs(filename: string, i: nat, ext: string) {
    i < |filename| && filename[i] == '.' && '.' !in filename[i + 1..] && Lower(filename[i + 1..]) == ext
  }

  /**
   * A name is allowed exactly when it has a dot whose tail holds no further
   * dot and whose lowercased tail is in the allow-list.
   */
  lemma AllowedFileIff(filename: string, allowed: set<string>)
    ensures AllowedFile(filename, allowed) <==>
            exists i: nat, ext :: ext in allowed && LastExtensionIs(filename, i, ext)
  {
    if AllowedFile(filename, allowed) {
      var i := LastIndexOf(filename, '.').value;
      assert LastExtensionIs(filename, i, Lower(filename[i + 1..]));
    }
    if exists i: nat, ext :: ext in allowed && LastExtensionIs(filename, i, ext) {
      var i: nat, ext :| ext in allowed && LastExtensionIs(filename, i, ext);
      assert forall j :: i < j < |filename| ==> filename[i + 1..][j - i - 1] == filename[j];
      assert LastIndexOf(filename, '.').value == i;
    }
  }

  /** A name without any dot is refused, whatever the allow-list. */
  lemma NoDotRejected(filename: string, allowed: set<string>)
    requires '.' !in filename
    ensures !AllowedFile(filename, allowed)
  {
  }

  /** Only the last extension decides: a name ending in `.<ext>` is allowed or refused as `<ext>` is. */
  lemma LastExtensionDecides(stem: string, ext: string, allowed: set<string>)
    requires '.' !in ext
    ensures AllowedFile(stem + "." + ext, allowed) <==> Lower(ext) in allowed
  {
    var name := stem + "." + ext;
    assert name[|stem|] == '.';
    assert name[|stem| + 1..] == ext;
    assert forall j :: |stem| < j < |name| ==> name[j] == ext[j - |stem| - 1];
    assert LastIndexOf(name, '.').value == |stem|;
  }

  /**
   * A lowercased suffix test against `.<ext>` says the same as "the last
   * extension, lowercased, is `ext`", for an `ext` without dots.
   */
  lemma SuffixIsLastExtension(filename: string, ext: string)
    requires '.' !in ext
    ensures EndsWith(Lower(filename), "." + ext) <==> exists i: nat :: LastExtensionIs(filename, i, ext)
  {
    if EndsWith(Lower(filename), "." + ext) {
      SuffixGivesLastExtension(filename, ext);
    }
    if exists i: nat :: LastExtensionIs(filename, i, ext) {
      var i: nat :| LastExtensionIs(filename, i, ext);
      LastExtensionGivesSuffix(filename, i, ext);
    }
  }

  lemma SuffixGivesLastExtension(filename: string, ext: string)
    requires '.' !in ext
    requires EndsWith(Lower(filename), "." + ext)
    ensures LastExtensionIs(filename, |filename| - |ext| - 1, ext)
  {
    var i := |filename| - |ext| - 1;
    SuffixTail(filename, "." + ext);
    assert ("." + ext)[1..] == ext;
    assert ("." + ext)[0] == '.';
    LowerKeepsDot(filename, i);
    NoDotBeforeLowering(filename[i + 1..], ext);
  }

  /** The last `|suffix|` characters of `s`, lowered, are `suffix`; piecewise. */
  lemma SuffixTail(s: string, suffix: string)
    requires |suffix| > 0 && EndsWith(Lower(s), suffix)
    ensures Lower(s)[|s| - |suffix|] == suffix[0]
    ensures Lower(s[|s| - |suffix| + 1..]) == suffix[1..]
  {
    var i := |s| - |suffix|;
    LowerSuffix(s, i + 1);
    assert Lower(s)[i + 1..] == Lower(s)[i..][1..];
  }

  /** A string that lowers to one without dots has no dots. */
  lemma NoDotBeforeLowering(t: string, ext: string)
    requires '.' !in ext && Lower(t) == ext
    ensures '.' !in t
  {
    forall k | 0 <= k < |t| ensures t[k] != '.' {
      assert LowerChar(t[k]) == ext[k];
    }
  }

  lemma LastExtensionGivesSuffix(filename: string, i: nat, ext: string)
    requires LastExtensionIs(filename, i, ext)
    ensures EndsWith(Lower(filename), "." + ext)
  {
    var low := Lower(filename);
    LowerSuffix(filename, i + 1);
    assert low[i + 1..] == ext;
    assert low[i] == '.';
    assert low[i..] == [low[i]] + low[i + 1..];
    assert |low| - |"." + ext| == i;
  }
}
