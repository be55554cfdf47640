/**
 Title sanitisation and output naming (`safe_title_f`, `output_path_f`).
 */
module Naming {
  import opened Strings

  /**
   Python's `str.isalnum` on characters at or above U+0080, which comes from the
   Unicode character database. The model keeps it as a parameter: every
   statement below holds whatever the database says about non-ASCII characters
   (the titles sanitised here are mostly Chinese).
   */
  type NonAsciiAlnum = char -> bool

  predicate IsAsciiAlnum(c: char) {
    ('a' <= c <= 'z') || ('A' <= c <= 'Z') || ('0' <= c <= '9')
  }

  /**
   Python's `c.isalnum()` for one character: exactly the ASCII letters and
   digits below U+0080, and whatever the Unicode database says above.
   */
  predicate IsAlnum(c: char, unicode: NonAsciiAlnum) {
    if (c as int) < 128 then IsAsciiAlnum(c) else unicode(c)
  }

  /** The separator is not alphanumeric, and neither is the path separator. */
  lemma SeparatorsAreNotAlnum(unicode: NonAsciiAlnum)
    ensures !IsAlnum('_', unicode) && !IsAlnum('/', unicode)
  {
  }

  /**
   `safe_title_f`: every character that is not alphanumeric becomes `_`, one for
   one; alphanumeric characters stay where they are.
   */
  function SafeTitle(title: string, unicode: NonAsciiAlnum): (r: string)
    ensures |r| == |title|
    ensures forall i :: 0 <= i < |title| && IsAlnum(title[i], unicode) ==> r[i] == title[i]
    ensures forall i :: 0 <= i < |title| && !IsAlnum(title[i], unicode) ==> r[i] == '_'
  {
    seq(|title|, i requires 0 <= i < |title| => if IsAlnum(title[i], unicode) then title[i] else '_')
  }

  /** Every character of a sanitised title is alphanumeric or `_`; in particular none is `/`. */
  lemma SafeTitleAlphabet(title: string, unicode: NonAsciiAlnum)
    ensures forall i :: 0 <= i < |title| ==>
      IsAlnum(SafeTitle(title, unicode)[i], unicode) || SafeTitle(title, unicode)[i] == '_'
    ensures '/' !in SafeTitle(title, unicode)
  {
  }

  /** Sanitising is idempotent: `_` is not alphanumeric and alphanumerics are kept. */
  lemma SafeTitleIdempotent(title: string, unicode: NonAsciiAlnum)
    ensures SafeTitle(SafeTitle(title, unicode), unicode) == SafeTitle(title, unicode)
  {
    var s := SafeTitle(title, unicode);
    var t := SafeTitle(s, unicode);
    forall i | 0 <= i < |s|
      ensures t[i] == s[i]
    {
      if !IsAlnum(title[i], unicode) {
        assert s[i] == '_' && !IsAlnum('_', unicode);
      }
    }
  }

  /** For example, `"Ep. 1: Intro!"` sanitises to `"Ep__1__Intro_"`. */
  lemma SafeTitleExample(unicode: NonAsciiAlnum)
    ensures SafeTitle("Ep. 1: Intro!", unicode) == "Ep__1__Intro_"
  {
    var s := SafeTitle("Ep. 1: Intro!", unicode);
    assert |s| == 13;
    assert s[0] == 'E' && s[1] == 'p' && s[2] == '_' && s[3] == '_' && s[4] == '1';
    assert s[5] == '_' && s[6] == '_' && s[7] == 'I' && s[8] == 'n' && s[9] == 't';
    assert s[10] == 'r' && s[11] == 'o' && s[12] == '_';
  }

  /**
   Sanitising is not injective: titles differing only in which punctuation they
   use get the same name, so their files cannot be told apart.
   */
  lemma SafeTitleCollision(unicode: NonAsciiAlnum)
    ensures SafeTitle("a b", unicode) == SafeTitle("a-b", unicode) == "a_b"
  {
    assert SafeTitle("a b", unicode)[1] == '_';
    assert SafeTitle("a-b", unicode)[1] == '_';
  }

  /** The file name `{date}_{safe}_{res}.mp4` that `output_path_f` places in the directory. */
  function OutputName(title: string, res: string, date: string, unicode: NonAsciiAlnum): (r: string)
    ensures |r| == |date| + |title| + |res| + 6
    ensures EndsWith(r, ".mp4")
    ensures r[..|date|] == date && r[|date|] == '_'
    ensures OccursAt(r, SafeTitle(title, unicode), |date| + 1)
    ensures r[|date| + 1 + |title|] == '_'
    ensures r[|date| + |title| + 2..|r| - 4] == res
  {
    date + "_" + SafeTitle(title, unicode) + "_" + res + ".mp4"
  }

  /**
   `str(Path(dir) / name)` for a plain file name: an empty directory is the
   current directory, a directory that already ends in `/` gets no second one.
   */
  function JoinPath(dir: string, name: string): (r: string)
    ensures dir == [] ==> r == name
    ensures dir != [] ==> |r| > |dir| + |name| - 1 && r[..|dir|] == dir
    ensures dir != [] && dir[|dir| - 1] == '/' ==> r == dir + name
    ensures dir != [] && dir[|dir| - 1] != '/' ==> r == dir + "/" + name
    ensures r == name || (|r| > |name| && r[|r| - |name| - 1] == '/')
    ensures r[|r| - |name|..] == name
  {
    if dir == [] then name
    else if dir[|dir| - 1] == '/' then dir + name
    else dir + "/" + name
  }

  /** The last component of a path: what `os.listdir` of its directory reports. */
  function Basename(path: string): (r: string)
    ensures '/' !in r
    ensures |r| <= |path| && r == path[|path| - |r|..]
    decreases |path|
  {
    if path == [] then []
    else if path[|path| - 1] == '/' then []
    else Basename(path[..|path| - 1]) + [path[|path| - 1]]
  }

  /** The base name is the whole path, or what follows its last `/`. */
  lemma {:induction false} BasenameIsLastComponent(path: string)
    ensures var r := Basename(path); r == path || path[|path| - |r| - 1] == '/'
    decreases |path|
  {
    if path != [] && path[|path| - 1] != '/' {
      var init := path[..|path| - 1];
      BasenameIsLastComponent(init);
      var b := Basename(init);
      assert Basename(path) == b + [path[|path| - 1]];
      assert b != init ==> path[|path| - |b| - 2] == init[|init| - |b| - 1];
    }
  }

  /** `output_path_f(dir, title, res, date)`. */
  function OutputPath(dir: string, title: string, res: string, date: string, unicode: NonAsciiAlnum): (r: string)
    ensures EndsWith(r, ".mp4")
    ensures dir != [] ==> |r| >= |dir| && r[..|dir|] == dir
  {
    JoinPath(dir, OutputName(title, res, date, unicode))
  }

  /**
   The file `output_path_f` names lands in `dir` under exactly the name
   `{date}_{safe}_{res}.mp4`, provided neither the date nor the tier holds a `/`
   (the sanitised title never does).
   */
  lemma OutputPathBasename(dir: string, title: string, res: string, date: string, unicode: NonAsciiAlnum)
    requires '/' !in date && '/' !in res
    ensures Basename(OutputPath(dir, title, res, date, unicode)) == OutputName(title, res, date, unicode)
  {
    var safe := SafeTitle(title, unicode);
    SafeTitleAlphabet(title, unicode);
    var name := OutputName(title, res, date, unicode);
    assert name == date + "_" + safe + "_" + res + ".mp4";
    assert '/' !in date + "_" + safe;
    assert '/' !in date + "_" + safe + "_" + res;
    BasenameOfJoin(dir, name);
  }

  /** The base name of `dir / name` is `name` when `name` holds no `/`. */
  lemma BasenameOfJoin(dir: string, name: string)
    requires '/' !in name
    ensures Basename(JoinPath(dir, name)) == name
  {
    var p := JoinPath(dir, name);
    BasenameAfterSeparator(p[..|p| - |name|], name);
    assert p == p[..|p| - |name|] + name;
  }

  lemma {:induction false} BasenameAfterSeparator(prefix: string, name: string)
    requires prefix == [] || prefix[|prefix| - 1] == '/'
    requires '/' !in name
    ensures Basename(prefix + name) == name
    decreases |name|
  {
    if name == [] {
      assert prefix + name == prefix;
    } else {
      var init := name[..|name| - 1];
      assert prefix + name == (prefix + init) + [name[|name| - 1]];
      assert (prefix + name)[..|prefix + name| - 1] == prefix + init;
      BasenameAfterSeparator(prefix, init);
      assert name == init + [name[|name| - 1]];
    }
  }
}
