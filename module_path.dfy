/** `path_to_module`: the dotted module name of a source file, given its
    path relative to the package directory (pytest_archon/collect.py). */
module ModulePath {

  import opened Base
  import Resolve

  const InitStem := "__init__"

  /** `PurePath(name).stem`: the file name without its last suffix, where a
      leading dot or a trailing dot does not start a suffix. */
  function Stem(fileName: string): (stem: string)
    ensures |stem| <= |fileName| && fileName[..|stem|] == stem
    ensures stem != fileName ==> fileName[|stem|] == '.' && '.' !in fileName[|stem| + 1..]
  {
    var i := RFind(fileName, '.');
    if 0 < i < |fileName| - 1 then fileName[..i] else fileName
  }

  /** `re.sub(r"\.+", ".", s)`: every run of dots becomes one dot. */
  function CollapseDots(s: string): (r: string)
    ensures |r| <= |s|
    ensures NoDoubleDots(r)
    ensures r != [] <==> s != []
    ensures s != [] ==> r[0] == s[0]
  {
    if |s| <= 1 then s
    else if s[0] == '.' && s[1] == '.' then CollapseDots(s[1..])
    else [s[0]] + CollapseDots(s[1..])
  }

  /** The parts that are joined: the package (when given), the directories
      of the relative path, and the file stem unless it is `__init__`. */
  function ModuleParts(relDirs: seq<string>, fileName: string, package: string): seq<string> {
    (if package != "" then [package] else [])
    + relDirs
    + (if Stem(fileName) != InitStem then [Stem(fileName)] else [])
  }

  /** `path_to_module(base / relDirs / fileName, base, package)`; the empty
      `package` stands for a missing one (both are false in Python). */
  function PathToModule(relDirs: seq<string>, fileName: string, package: string): (m: string)
    ensures NoDoubleDots(m)
  {
    CollapseDots(JoinDots(ModuleParts(relDirs, fileName, package)))
  }

  /** Only runs of dots are touched: the other characters stay, in order. */
  function NonDots(s: string): string {
    if s == [] then [] else (if s[0] == '.' then [] else [s[0]]) + NonDots(s[1..])
  }

  lemma {:induction false} CollapseKeepsNonDots(s: string)
    ensures NonDots(CollapseDots(s)) == NonDots(s)
  {
    if |s| > 1 {
      CollapseKeepsNonDots(s[1..]);
      if !(s[0] == '.' && s[1] == '.') {
        assert ([s[0]] + CollapseDots(s[1..]))[1..] == CollapseDots(s[1..]);
      }
    }
  }

  /** The sanitation changes a name exactly when it has a double dot. */
  lemma {:induction false} CollapseIdentityExactly(s: string)
    ensures CollapseDots(s) == s <==> NoDoubleDots(s)
  {
    if |s| > 1 {
      CollapseIdentityExactly(s[1..]);
      if s[0] == '.' && s[1] == '.' {
        assert |CollapseDots(s)| < |s|;
      } else {
        assert NoDoubleDots(s) <==> NoDoubleDots(s[1..]) by {
          if NoDoubleDots(s[1..]) {
            forall i | 0 <= i < |s| - 1 ensures !(s[i] == '.' && s[i + 1] == '.') {
              if i > 0 {
                assert s[i] == s[1..][i - 1] && s[i + 1] == s[1..][i];
              }
            }
          }
          if NoDoubleDots(s) {
            forall i | 0 <= i < |s[1..]| - 1 ensures !(s[1..][i] == '.' && s[1..][i + 1] == '.') {
              assert s[1..][i] == s[i + 1] && s[1..][i + 1] == s[i + 2];
            }
          }
        }
      }
    }
  }

  /** Sanitising twice is sanitising once. */
  lemma CollapseIdempotent(s: string)
    ensures CollapseDots(CollapseDots(s)) == CollapseDots(s)
  {
    CollapseIdentityExactly(CollapseDots(s));
  }

  lemma {:induction false} CollapsePrefix(p: string, q: string)
    ensures |CollapseDots(p)| <= |CollapseDots(p + q)|
    ensures CollapseDots(p + q)[..|CollapseDots(p)|] == CollapseDots(p)
  {
    if p == [] {
      assert p + q == q;
    } else if |p| == 1 {
      if q == [] {
        assert p + q == p;
      } else {
        assert (p + q)[1..] == q;
      }
    } else {
      assert (p + q)[1..] == p[1..] + q;
      assert (p + q)[0] == p[0] && (p + q)[1] == p[1];
      CollapsePrefix(p[1..], q);
    }
  }

  /** When a package is given and has no double dot, the module name starts
      with it. */
  lemma StartsWithPackage(relDirs: seq<string>, fileName: string, package: string)
    requires package != "" && NoDoubleDots(package)
    ensures var m := PathToModule(relDirs, fileName, package);
      |package| <= |m| && m[..|package|] == package
  {
    var parts := ModuleParts(relDirs, fileName, package);
    assert parts[0] == package;
    CollapseIdentityExactly(package);
    if |parts| == 1 {
      assert JoinDots(parts) == package;
    } else {
      assert JoinDots(parts) == package + ("." + JoinDots(parts[1..]));
      CollapsePrefix(package, "." + JoinDots(parts[1..]));
    }
  }

  /** A well-formed part: a non-empty name without dots. */
  predicate PlainPart(s: string) {
    s != [] && '.' !in s
  }

  lemma {:induction false} JoinPlainHasNoDoubleDots(parts: seq<string>)
    requires forall j :: 0 <= j < |parts| ==> PlainPart(parts[j])
    ensures NoDoubleDots(JoinDots(parts))
    ensures parts != [] ==> JoinDots(parts) != [] && JoinDots(parts)[0] != '.'
  {
    if |parts| > 1 {
      JoinPlainHasNoDoubleDots(parts[1..]);
      var a, b := parts[0], JoinDots(parts[1..]);
      var s := a + "." + b;
      forall i | 0 <= i < |s| - 1 ensures !(s[i] == '.' && s[i + 1] == '.') {
        if i < |a| {
          assert s[i] == a[i];
        } else if i > |a| {
          assert s[i] == b[i - |a| - 1] && s[i + 1] == b[i - |a|];
        }
      }
    } else if |parts| == 1 {
      forall i | 0 <= i < |parts[0]| - 1 ensures !(parts[0][i] == '.' && parts[0][i + 1] == '.') {
        assert parts[0][i] in parts[0];
      }
    }
  }

  lemma {:induction false} SplitJoinPlain(parts: seq<string>)
    requires parts != []
    requires forall j :: 0 <= j < |parts| ==> PlainPart(parts[j])
    ensures Resolve.RSplit(JoinDots(parts), |parts|) == parts
  {
    if |parts| == 1 {
      assert JoinDots(parts) == parts[0];
    } else {
      var front, last := parts[..|parts| - 1], parts[|parts| - 1];
      assert parts == front + [last];
      assert PlainPart(last);
      assert forall j :: 0 <= j < |front| ==> PlainPart(front[j]) by {
        forall j | 0 <= j < |front| ensures PlainPart(front[j]) {
          assert front[j] == parts[j];
        }
      }
      Resolve.JoinDotsSnoc(front, last);
      Resolve.RSplitSnoc(JoinDots(front), last, |parts|);
      SplitJoinPlain(front);
    }
  }

  /** For a package, directories and a file name that are plain names, no
      sanitation happens and splitting the module name at its dots gives
      back exactly the parts: the package, each directory, then the stem
      unless the file is `__init__`. */
  lemma PathToModuleRoundTrip(relDirs: seq<string>, fileName: string, package: string)
    requires forall j :: 0 <= j < |relDirs| ==> PlainPart(relDirs[j])
    requires package == "" || PlainPart(package)
    requires Stem(fileName) == InitStem || PlainPart(Stem(fileName))
    requires ModuleParts(relDirs, fileName, package) != []
    ensures var parts := ModuleParts(relDirs, fileName, package);
      PathToModule(relDirs, fileName, package) == JoinDots(parts)
      && Resolve.RSplit(PathToModule(relDirs, fileName, package), |parts|) == parts
  {
    var parts := ModuleParts(relDirs, fileName, package);
    assert forall j :: 0 <= j < |parts| ==> PlainPart(parts[j]);
    JoinPlainHasNoDoubleDots(parts);
    CollapseIdentityExactly(JoinDots(parts));
    SplitJoinPlain(parts);
  }

  /** `__init__.py` names the package directory itself. */
  lemma InitNamesItsDirectory(relDirs: seq<string>, package: string)
    ensures PathToModule(relDirs, "__init__.py", package) == CollapseDots(JoinDots((if package != "" then [package] else []) + relDirs))
  {
    var f := "__init__.py";
    assert f[..10] == "__init__.p" && f[..10][..9] == "__init__.";
    assert RFind("__init__.", '.') == 8;
    assert RFind(f, '.') == 8;
    assert f[..8] == InitStem;
    assert Stem(f) == InitStem;
    var front := (if package != "" then [package] else []) + relDirs;
    assert ModuleParts(relDirs, f, package) == front + [];
    assert front + [] == front;
  }
}
