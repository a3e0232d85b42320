/**
  The extension part of `os.path.splitext` for POSIX paths (separator '/',
  no alternative separator): it starts at the last '.' of the final path
  component, except that dots which only lead that component do not start
  an extension.
 */
module PathSplit {
  import opened Strings

  /** Index of the last `c` in `s`, or -1 when `s` has none (`str.rfind`). */
  function LastIndexOf(s: string, c: char): (k: int)
    ensures -1 <= k < |s|
    decreases |s|
  {
    if |s| == 0 then -1
    else if s[|s| - 1] == c then |s| - 1
    else LastIndexOf(s[..|s| - 1], c)
  }

  /** `rfind` finds the last occurrence: the index holds `c` and no later index does. */
  lemma {:induction false} LastIndexOfSpec(s: string, c: char)
    ensures LastIndexOf(s, c) >= 0 ==> s[LastIndexOf(s, c)] == c
    ensures forall j :: LastIndexOf(s, c) < j < |s| ==> s[j] != c
    decreases |s|
  {
    if |s| > 0 && s[|s| - 1] != c {
      var init := s[..|s| - 1];
      LastIndexOfSpec(init, c);
      forall j | LastIndexOf(s, c) < j < |s| ensures s[j] != c {
        if j < |s| - 1 {
          assert s[j] == init[j];
        }
      }
    }
  }

  predicate AllDots(s: string) {
    forall i :: 0 <= i < |s| ==> s[i] == '.'
  }

  /** The number of dots that `s` starts with. */
  function LeadingDots(s: string): (n: nat)
    ensures n <= |s|
    decreases |s|
  {
    if |s| > 0 && s[0] == '.' then 1 + LeadingDots(s[1..]) else 0
  }

  /** The leading dots are exactly the first `LeadingDots(s)` characters. */
  lemma {:induction false} LeadingDotsSpec(s: string)
    ensures forall j :: 0 <= j < LeadingDots(s) ==> s[j] == '.'
    ensures LeadingDots(s) < |s| ==> s[LeadingDots(s)] != '.'
    decreases |s|
  {
    if |s| > 0 && s[0] == '.' {
      LeadingDotsSpec(s[1..]);
      forall j | 0 < j < LeadingDots(s) ensures s[j] == '.' {
        assert s[j] == s[1..][j - 1];
      }
    }
  }

  /** `os.path.splitext(p)[1]`: the last dot of the final component starts the
      extension if some character before it in that component is not a dot. */
  function Extension(p: string): (ext: string)
    ensures |ext| <= |p|
  {
    var sep := LastIndexOf(p, '/');
    var dot := LastIndexOf(p, '.');
    if sep + 1 + LeadingDots(p[sep + 1..]) < dot then p[dot..] else ""
  }

  /** The extension is empty or a suffix of the path that starts with its only dot
      and holds no '/'. */
  lemma ExtensionShape(p: string)
    ensures var ext := Extension(p);
      && (|ext| == 0 || (ext[0] == '.' && ext == p[|p| - |ext|..]))
      && forall i :: 0 < i < |ext| ==> ext[i] != '.' && ext[i] != '/'
  {
    var sep := LastIndexOf(p, '/');
    var dot := LastIndexOf(p, '.');
    if sep + 1 + LeadingDots(p[sep + 1..]) < dot {
      TailShape(p, sep, dot);
    }
  }

  /** Everything from the last dot on, when the last '/' comes before it, starts with
      that dot and holds no further '.' and no '/'. */
  lemma TailShape(p: string, sep: int, dot: int)
    requires sep == LastIndexOf(p, '/') && dot == LastIndexOf(p, '.') && sep < dot
    ensures p[dot] == '.'
    ensures forall i :: 0 < i < |p| - dot ==> p[dot..][i] != '.' && p[dot..][i] != '/'
  {
    LastIndexOfSpec(p, '/');
    LastIndexOfSpec(p, '.');
    forall i | 0 < i < |p| - dot ensures p[dot..][i] != '.' && p[dot..][i] != '/' {
      assert p[dot..][i] == p[dot + i];
    }
  }

  /** The last occurrence is the one with no later occurrence. */
  lemma LastIndexOfIs(s: string, c: char, k: int)
    requires -1 <= k < |s|
    requires k >= 0 ==> s[k] == c
    requires forall j :: k < j < |s| ==> s[j] != c
    ensures LastIndexOf(s, c) == k
  {
    var k' := LastIndexOf(s, c);
    LastIndexOfSpec(s, c);
    assert k' >= 0 ==> s[k'] == c;
    assert k >= 0 ==> s[k] == c;
  }

  /** Appending text without `c` does not move the last `c`. */
  lemma LastIndexOfAppend(a: string, b: string, c: char)
    requires c !in b
    ensures LastIndexOf(a + b, c) == LastIndexOf(a, c)
  {
    var k := LastIndexOf(a, c);
    var s := a + b;
    LastIndexOfSpec(a, c);
    forall j | k < j < |s| ensures s[j] != c {
      if j < |a| {
        assert s[j] == a[j];
      } else {
        assert s[j] == b[j - |a|];
      }
    }
    if k >= 0 {
      assert s[k] == a[k];
    }
    LastIndexOfIs(s, c, k);
  }

  /** A non-dot character between the final '/' and the last '.' makes an extension. */
  lemma ExtensionFromNameChar(p: string, i: int)
    requires LastIndexOf(p, '/') < i < LastIndexOf(p, '.')
    requires p[i] != '.'
    ensures Extension(p) == p[LastIndexOf(p, '.')..]
  {
    var sep := LastIndexOf(p, '/');
    var name := p[sep + 1..];
    assert name[i - sep - 1] == p[i];
    LeadingDotsSpec(name);
  }

  /** Only dots between the final '/' and the last '.' (or no dot after the final '/'):
      no extension. */
  lemma NoExtensionFromDots(p: string)
    requires forall j :: LastIndexOf(p, '/') < j < LastIndexOf(p, '.') ==> p[j] == '.'
    ensures Extension(p) == ""
  {
    var sep := LastIndexOf(p, '/');
    var name := p[sep + 1..];
    LeadingDotsSpec(name);
  }

  lemma NoSlashAcrossDot(base: string, suffix: string)
    requires '/' !in base && '/' !in suffix
    ensures '/' !in base + "." + suffix
  {
    var tail := base + "." + suffix;
    forall j | 0 <= j < |tail| ensures tail[j] != '/' {
      if j < |base| {
        assert tail[j] == base[j];
      } else if j > |base| {
        assert tail[j] == suffix[j - |base| - 1];
      }
    }
  }

  lemma DropPrefix(a: string, b: string)
    ensures (a + b)[|a|..] == b
  {
  }

  /** Whatever follows the last dot of a name with a non-dot character before that dot
      is its extension; earlier dots (as in "a.b.TXT") play no part. */
  lemma ExtensionOfSuffix(dir: string, base: string, ext: string)
    requires '/' !in base && !AllDots(base)
    requires |ext| >= 1 && ext[0] == '.' && '.' !in ext[1..] && '/' !in ext[1..]
    ensures Extension(dir + base + ext) == ext
  {
    var p := dir + base + ext;
    var d := |dir| + |base|;
    assert ext == "." + ext[1..];
    assert LastIndexOf(p, '.') == d by {
      var head := dir + base + ".";
      assert p == head + ext[1..];
      assert head[d] == '.';
      LastIndexOfIs(head, '.', d);
      LastIndexOfAppend(head, ext[1..], '.');
    }
    assert LastIndexOf(p, '/') < |dir| by {
      var tail := base + ext;
      NoSlashAcrossDot(base, ext[1..]);
      assert p == dir + tail;
      LastIndexOfAppend(dir, tail, '/');
    }
    var i :| 0 <= i < |base| && base[i] != '.';
    assert p[|dir| + i] != '.' by {
      assert p[|dir| + i] == base[i];
    }
    ExtensionFromNameChar(p, |dir| + i);
    DropPrefix(dir + base, ext);
  }

  /** A final path component made of leading dots and a dot-free rest has no extension:
      ".txt", "README" and "..." all give "". */
  lemma ExtensionOfDotfile(dir: string, dots: string, rest: string)
    requires dir == "" || dir[|dir| - 1] == '/'
    requires AllDots(dots)
    requires '.' !in rest && '/' !in rest
    ensures Extension(dir + dots + rest) == ""
  {
    var tail := dots + rest;
    var p := dir + tail;
    assert p == dir + dots + rest;
    assert '/' !in tail by {
      forall j | 0 <= j < |tail| ensures tail[j] != '/' {
        if j < |dots| {
          assert tail[j] == dots[j];
        } else {
          assert tail[j] == rest[j - |dots|];
        }
      }
    }
    LastIndexOfAppend(dir, tail, '/');
    LastIndexOfIs(dir, '/', |dir| - 1);
    assert p == (dir + dots) + rest;
    LastIndexOfAppend(dir + dots, rest, '.');
    forall j | |dir| - 1 < j < LastIndexOf(p, '.') ensures p[j] == '.' {
      assert p[j] == dots[j - |dir|];
    }
    NoExtensionFromDots(p);
  }

  /** A final component of one leading dot and a dot-free rest, such as ".txt". */
  lemma ExtensionOfDotName(dir: string, name: string)
    requires dir == "" || dir[|dir| - 1] == '/'
    requires |name| >= 1 && name[0] == '.' && '.' !in name[1..] && '/' !in name[1..]
    ensures Extension(dir + name) == ""
  {
    var rest := name[1..];
    assert name == "." + rest;
    assert dir + name == dir + "." + rest;
    ExtensionOfDotfile(dir, ".", rest);
  }

  lemma LastIndexOfLower(s: string, c: char)
    requires !('A' <= c <= 'Z') && !('a' <= c <= 'z')
    ensures LastIndexOf(Lower(s), c) == LastIndexOf(s, c)
  {
    var k := LastIndexOf(s, c);
    LastIndexOfSpec(s, c);
    forall j | 0 <= j < |s| ensures Lower(s)[j] == c <==> s[j] == c {
      LowerCharKeepsNonLetters(s[j], c);
    }
    if k >= 0 {
      assert Lower(s)[k] == c;
    }
    LastIndexOfIs(Lower(s), c, k);
  }

  lemma LeadingDotsLower(s: string)
    ensures LeadingDots(Lower(s)) == LeadingDots(s)
  {
    var n, n' := LeadingDots(s), LeadingDots(Lower(s));
    LeadingDotsSpec(s);
    LeadingDotsSpec(Lower(s));
    forall j | 0 <= j < |s| ensures Lower(s)[j] == '.' <==> s[j] == '.' {
      LowerCharKeepsNonLetters(s[j], '.');
    }
    assert n < |s| ==> Lower(s)[n] != '.';
    assert n' < |s| ==> s[n'] != '.';
  }

  /** Taking the extension and lowering commute: splitext never looks at letter case. */
  lemma ExtensionLower(p: string)
    ensures Extension(Lower(p)) == Lower(Extension(p))
  {
    var q := Lower(p);
    var sep, dot := LastIndexOf(p, '/'), LastIndexOf(p, '.');
    LastIndexOfLower(p, '/');
    LastIndexOfLower(p, '.');
    LowerSuffix(p, sep + 1);
    LeadingDotsLower(p[sep + 1..]);
    if sep + 1 + LeadingDots(p[sep + 1..]) < dot {
      LowerSuffix(p, dot);
      assert Extension(q) == q[dot..];
    } else {
      assert Extension(q) == "";
      assert |Lower("")| == 0;
    }
  }
}
