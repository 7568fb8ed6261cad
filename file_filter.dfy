/** Which files exfix.py enumerates: those whose final extension, lower-cased,
    is one of the supported photo and video extensions. Paths use '/' as the
    separator, as on POSIX. */
module FileFilter {

  const SupportedExtensions: seq<string> := [".jpg", ".jpeg", ".png", ".heic", ".mp4", ".mov", ".avi", ".mkv"]

  /** Python's `str.rfind` for one character: the last index of `c` in `s`, or -1. */
  function LastIndexOf(s: string, c: char): (r: int)
    ensures -1 <= r < |s|
    ensures r == -1 ==> forall k :: 0 <= k < |s| ==> s[k] != c
    ensures r >= 0 ==> s[r] == c && forall k :: r < k < |s| ==> s[k] != c
  {
    if s == [] then -1
    else if s[|s| - 1] == c then |s| - 1
    else LastIndexOf(s[..|s| - 1], c)
  }

  /** `PurePath.name` of a normalised path (no trailing '/', no "." component,
      as `rglob` yields them): everything after its last '/', or the whole
      path when it has none. */
  function Name(path: string): (name: string)
    ensures forall k :: 0 <= k < |name| ==> name[k] != '/'
    ensures |name| <= |path| && name == path[|path| - |name|..]
    ensures |name| == |path| || path[|path| - |name| - 1] == '/'
  {
    path[LastIndexOf(path, '/') + 1..]
  }

  /** `PurePath.suffix`: the text from the last '.' of the name, provided that
      dot is neither the name's first nor its last character; "" otherwise. */
  function Suffix(name: string): (ext: string)
    ensures ext != "" ==> |ext| >= 2 && ext[0] == '.' && |ext| < |name|
  {
    var i := LastIndexOf(name, '.');
    if 0 < i < |name| - 1 then name[i..] else ""
  }

  /** U+212A KELVIN SIGN, whose Python lower case is the ASCII letter 'k'. */
  const KelvinSign: char := '\U{212A}'

  /** Python's `str.lower` on the characters whose lower case is a single
      ASCII character; every other character is left as it is. */
  function LowerChar(c: char): (d: char)
    ensures d == '.' <==> c == '.'
    ensures !('A' <= d <= 'Z')
    ensures 'A' <= c <= 'Z' ==> 'a' <= d <= 'z' && d as int - 'a' as int == c as int - 'A' as int
    ensures !('A' <= c <= 'Z') && c != KelvinSign ==> d == c
  {
    if 'A' <= c <= 'Z' then (c as int + 32) as char
    else if c == KelvinSign then 'k'
    else c
  }

  /** `str.lower` on a whole string, character by character: the length and
      the dots stay, and no upper-case ASCII letter is left. */
  function Lower(s: string): (t: string)
    ensures |t| == |s|
    ensures forall k :: 0 <= k < |t| ==> !('A' <= t[k] <= 'Z')
    ensures forall k :: 0 <= k < |t| ==> (t[k] == '.' <==> s[k] == '.')
  {
    seq(|s|, k requires 0 <= k < |s| => LowerChar(s[k]))
  }

  /** The filter of `process_folder`: is the lower-cased suffix of the path's
      name one of the supported extensions? */
  predicate IsSupported(path: string)
  {
    Lower(Suffix(Name(path))) in SupportedExtensions
  }

  /** A reference reading of the filter that does not mention `rfind`: the
      name, lower-cased, ends with a supported extension and is longer than it. */
  predicate EndsWithSupportedExtension(name: string)
  {
    exists e :: e in SupportedExtensions && |e| < |name| && Lower(name[|name| - |e|..]) == e
  }

  /** A dot followed by at least one character, none of them a dot. */
  predicate DottedExtension(e: string)
  {
    |e| >= 2 && e[0] == '.' && forall k :: 1 <= k < |e| ==> e[k] != '.'
  }

  lemma ExtensionShape(e: string)
    requires e in SupportedExtensions
    ensures DottedExtension(e)
  {
  }

  /** A name has no suffix exactly when it is empty, ends with a dot, or has
      no dot after its first character. */
  lemma NoSuffixExactly(name: string)
    ensures Suffix(name) == "" <==> name == "" || name[|name| - 1] == '.'
                                    || forall k :: 0 < k < |name| ==> name[k] != '.'
  {
  }

  /** A non-empty suffix is a dotted extension that ends the name and is
      shorter than it. */
  lemma SuffixEndsName(name: string)
    requires Suffix(name) != ""
    ensures var ext := Suffix(name);
            DottedExtension(ext) && |ext| < |name| && name[|name| - |ext|..] == ext
  {
  }

  /** Conversely, when the name, lower-cased, ends with a dotted extension that
      is shorter than it, that ending is the lower-cased suffix. */
  lemma SuffixOfDottedEnding(name: string, e: string)
    requires DottedExtension(e) && |e| < |name| && Lower(name[|name| - |e|..]) == e
    ensures Lower(Suffix(name)) == e
  {
    var n, j := |name|, |name| - |e|;
    assert LowerChar(name[j]) == Lower(name[j..])[0] == '.';
    forall k | j < k < n
      ensures name[k] != '.'
    {
      assert LowerChar(name[k]) == Lower(name[j..])[k - j] == e[k - j];
    }
    assert LastIndexOf(name, '.') == j;
  }

  /** A name whose lower-cased suffix is supported ends with that extension. */
  lemma SupportedSuffixEndsName(name: string)
    requires Lower(Suffix(name)) in SupportedExtensions
    ensures EndsWithSupportedExtension(name)
  {
    var ext := Suffix(name);
    assert ext != "";
    SuffixEndsName(name);
    EndingWitness(name, Lower(ext));
  }

  /** One supported extension that the name ends with is enough. */
  lemma EndingWitness(name: string, e: string)
    requires e in SupportedExtensions && |e| < |name| && Lower(name[|name| - |e|..]) == e
    ensures EndsWithSupportedExtension(name)
  {
  }

  /** A name that ends with a supported extension has it as its lower-cased suffix. */
  lemma EndingIsSupportedSuffix(name: string)
    requires EndsWithSupportedExtension(name)
    ensures Lower(Suffix(name)) in SupportedExtensions
  {
    var e :| e in SupportedExtensions && |e| < |name| && Lower(name[|name| - |e|..]) == e;
    ExtensionShape(e);
    SuffixOfDottedEnding(name, e);
  }

  /** The filter keeps exactly the paths whose name ends, case-insensitively,
      with a supported extension that is not the whole name: a name such as
      ".jpg" (a hidden file) is not kept. */
  lemma SupportedIffEndsWithExtension(path: string)
    ensures IsSupported(path) <==> EndsWithSupportedExtension(Name(path))
  {
    if IsSupported(path) {
      SupportedSuffixEndsName(Name(path));
    }
    if EndsWithSupportedExtension(Name(path)) {
      EndingIsSupportedSuffix(Name(path));
    }
  }

  /** Lower-casing twice changes nothing more. */
  lemma LowerIdempotent(s: string)
    ensures Lower(Lower(s)) == Lower(s)
  {
  }

  /** The name of a path is what follows its last '/'. */
  lemma NameAfterSeparator(dir: string, name: string)
    requires forall k :: 0 <= k < |name| ==> name[k] != '/'
    ensures Name(dir + "/" + name) == name
  {
    var path := dir + "/" + name;
    assert path[|dir|] == '/';
    assert forall k :: |dir| < k < |path| ==> path[k] == name[k - |dir| - 1];
    assert LastIndexOf(path, '/') == |dir|;
    assert path[|dir| + 1..] == name;
  }

  /** A path without '/' (as found directly in the scanned directory when it
      is ".") is its own name. */
  lemma BareNameIsName(name: string)
    requires forall k :: 0 <= k < |name| ==> name[k] != '/'
    ensures Name(name) == name
  {
  }

  /** A file whose name is a non-empty stem followed by an extension that
      lower-cases to a supported one is kept, whatever the letter case. */
  lemma KeptWhateverTheCase(dir: string, stem: string, ext: string)
    requires stem != []
    requires forall k :: 0 <= k < |stem + ext| ==> (stem + ext)[k] != '/'
    requires Lower(ext) in SupportedExtensions
    ensures IsSupported(dir + "/" + stem + ext)
  {
    var name := stem + ext;
    assert dir + "/" + stem + ext == dir + "/" + name;
    NameAfterSeparator(dir, name);
    assert name[|name| - |ext|..] == ext;
    ExtensionShape(Lower(ext));
    SuffixOfDottedEnding(name, Lower(ext));
  }

  /** The Kelvin sign counts as a 'k' (".M\u212AV" is a ".mkv" file). */
  lemma KelvinSignLowersToK()
    ensures Lower(".M" + [KelvinSign] + "V") == ".mkv"
  {
  }

  /** A hidden file named after an extension is not kept: its only dot is its
      first character, so it has no suffix. */
  lemma HiddenFileNotKept(dir: string, ext: string)
    requires ext in SupportedExtensions
    ensures !IsSupported(dir + "/" + ext)
  {
    ExtensionShape(ext);
    NameAfterSeparator(dir, ext);
    assert LastIndexOf(ext, '.') == 0;
  }

  /** A name ending with a dotted extension shorter than it has that
      extension, lower-cased, as its lower-cased suffix. */
  lemma LoweredSuffixOfEnding(name: string, ext: string)
    requires DottedExtension(ext) && |ext| < |name| && name[|name| - |ext|..] == ext
    ensures Lower(Suffix(name)) == Lower(ext)
  {
    assert DottedExtension(Lower(ext));
    SuffixOfDottedEnding(name, Lower(ext));
  }

  /** Only the last extension counts: a supported extension earlier in the
      name does not make the file kept. */
  lemma LastExtensionCounts(dir: string, stem: string, ext: string)
    requires stem != []
    requires forall k :: 0 <= k < |stem + ext| ==> (stem + ext)[k] != '/'
    requires DottedExtension(ext) && Lower(ext) !in SupportedExtensions
    ensures !IsSupported(dir + "/" + stem + ext)
  {
    var name := stem + ext;
    assert dir + "/" + stem + ext == dir + "/" + name;
    NameAfterSeparator(dir, name);
    assert name[|name| - |ext|..] == ext;
    LoweredSuffixOfEnding(name, ext);
  }
}
