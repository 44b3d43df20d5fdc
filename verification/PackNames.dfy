/** File names as the pack command handles them: plain strings. */
module PackNames {
  /** What follows the last slash. */
  function Basename(path: string): string {
    if '/' !in path then path else Basename(path[1..])
  }

  /** A name from the mmaps file: relative names are relative to the trace directory. */
  function Resolve(dir: string, name: string): string {
    if name != [] && name[0] == '/' then name else dir + "/" + name
  }

  predicate IsHardlink(path: string) { '/' in path && "mmap_hardlink_" <= Basename(path) }

  /** The source's test: the directory's name is a string prefix. */
  predicate IsInTraceDir(path: string, dir: string) { dir <= path }

  /** A file directly in the directory. */
  predicate Inside(path: string, dir: string) { path == dir + "/" + Basename(path) }

  lemma {:induction false} BasenameHasNoSlash(path: string)
    ensures '/' !in Basename(path) && (|Basename(path)| == |path| || '/' in path)
  {
    if '/' in path {
      BasenameHasNoSlash(path[1..]);
    }
  }

  lemma {:induction false} BasenameInside(dir: string, base: string)
    requires '/' !in base
    ensures Basename(dir + "/" + base) == base
    ensures Inside(dir + "/" + base, dir)
    ensures Resolve(dir, base) == dir + "/" + base
  {
    var path := dir + "/" + base;
    assert path[|dir|] == '/';
    if dir == [] {
      assert path[1..] == base;
    } else {
      BasenameInside(dir[1..], base);
      assert path[1..] == dir[1..] + "/" + base;
    }
  }

  /** The prefix test is not the directory test: a sibling whose name begins alike passes it. */
  lemma PrefixIsNotInside()
    ensures IsInTraceDir("/t/ab/x", "/t/a") && !Inside("/t/ab/x", "/t/a")
    ensures Resolve("/t/a", Basename("/t/ab/x")) != "/t/ab/x"
  {
    assert "/t/ab" + "/" + "x" == "/t/ab/x";
    BasenameInside("/t/ab", "x");
    assert "/t/a" + "/" + "x" == "/t/a/x";
  }

  /** A path that passes the prefix test is in the directory exactly when one slash, and no other, follows. */
  lemma PrefixExactly(path: string, dir: string)
    requires IsInTraceDir(path, dir)
    ensures Inside(path, dir) <==> |dir| < |path| && path[|dir|] == '/' && '/' !in path[|dir| + 1..]
  {
    BasenameHasNoSlash(path);
    if Inside(path, dir) {
      assert path[|dir| + 1..] == Basename(path);
    }
    if |dir| < |path| && path[|dir|] == '/' && '/' !in path[|dir| + 1..] {
      assert path == dir + "/" + path[|dir| + 1..];
      BasenameInside(dir, path[|dir| + 1..]);
    }
  }

  // ---- names of copies

  function Decimal(n: nat): string {
    if n < 10 then [Digit(n)] else Decimal(n / 10) + [Digit(n % 10)]
  }

  function Digit(n: nat): char
    requires n < 10
  {
    "0123456789"[n]
  }

  lemma DigitInjective(m: nat, n: nat)
    requires m < 10 && n < 10 && Digit(m) == Digit(n)
    ensures m == n
  {
  }

  lemma {:induction false} DecimalInjective(m: nat, n: nat)
    requires Decimal(m) == Decimal(n)
    ensures m == n
  {
    hide Digit;
    var a, b := Decimal(m), Decimal(n);
    assert |a| > 0 && a[|a| - 1] == Digit(m % 10) && b[|b| - 1] == Digit(n % 10);
    DigitInjective(m % 10, n % 10);
    if m >= 10 && n >= 10 {
      assert a[..|a| - 1] == Decimal(m / 10) && b[..|b| - 1] == Decimal(n / 10);
      DecimalInjective(m / 10, n / 10);
    }
  }

  lemma {:induction false} DecimalHasNoSlash(n: nat)
    ensures '/' !in Decimal(n)
  {
    if n >= 10 {
      DecimalHasNoSlash(n / 10);
    }
  }

  /** What is left of a name after its "mmap_hardlink_N_" prefix. */
  function StripHardlink(last: string): string {
    if "mmap_hardlink_" <= last then AfterUnderscore(last[14..]) else last
  }

  function AfterUnderscore(s: string): string {
    if s == [] then [] else if s[0] == '_' then s[1..] else AfterUnderscore(s[1..])
  }

  function CopyBase(index: nat, last: string): string { "mmap_pack_" + Decimal(index) + "_" + last }

  function CopyName(dir: string, index: nat, last: string): string { dir + "/" + CopyBase(index, last) }

  lemma CopyNameInjective(dir: string, i: nat, j: nat, last: string)
    requires CopyName(dir, i, last) == CopyName(dir, j, last)
    ensures i == j
  {
    hide Decimal;
    var a, b := CopyName(dir, i, last), CopyName(dir, j, last);
    var n := |dir| + 11;
    assert a[n..|a| - |last| - 1] == Decimal(i);
    assert b[n..|b| - |last| - 1] == Decimal(j);
    DecimalInjective(i, j);
  }

  /** The digits of a number read back as the number. */
  function ReadDecimal(s: string): int {
    if s == [] then 0 else ReadDecimal(s[..|s| - 1]) * 10 + (s[|s| - 1] as int - '0' as int)
  }

  lemma {:induction false} DecimalReads(n: nat)
    ensures ReadDecimal(Decimal(n)) == n && Decimal(n) != [] && forall c :: c in Decimal(n) ==> '0' <= c <= '9'
  {
    var s := Decimal(n);
    if n < 10 {
      assert s[..0] == [] && ReadDecimal([]) == 0;
    } else {
      DecimalReads(n / 10);
      assert s[..|s| - 1] == Decimal(n / 10);
    }
  }

  /** The name of a hard link without "mmap_hardlink_", the number and the underscore; any other as it is. */
  lemma StripIs(number: string, rest: string, last: string)
    ensures '_' !in number ==> StripHardlink("mmap_hardlink_" + number + "_" + rest) == rest
    ensures !("mmap_hardlink_" <= last) ==> StripHardlink(last) == last
  {
    var name := "mmap_hardlink_" + number + "_" + rest;
    assert name[14..] == number + "_" + rest;
    if '_' !in number {
      AfterIs(number, rest);
    }
  }

  lemma {:induction false} AfterIs(number: string, rest: string)
    requires '_' !in number
    ensures AfterUnderscore(number + "_" + rest) == rest
  {
    if number == [] {
      assert (number + "_" + rest)[1..] == rest;
    } else {
      AfterIs(number[1..], rest);
      assert (number + "_" + rest)[1..] == number[1..] + "_" + rest;
    }
  }

  /** A file directly in the directory whose name is that of a copy. */
  predicate IsCopyName(path: string, dir: string) { Inside(path, dir) && "mmap_pack_" <= Basename(path) }

  lemma CopyIsNoHardlink(base: string)
    requires "mmap_pack_" <= base
    ensures !("mmap_hardlink_" <= base)
  {
    assert base[5] == "mmap_pack_"[5] == 'p';
  }

  lemma {:induction false} StripHasNoSlash(s: string)
    requires '/' !in s
    ensures '/' !in AfterUnderscore(s)
  {
    if s != [] && s[0] != '_' {
      StripHasNoSlash(s[1..]);
    }
  }

  lemma CopyNameInside(dir: string, index: nat, path: string)
    ensures var name := CopyName(dir, index, StripHardlink(Basename(path)));
            && IsCopyName(name, dir) && '/' !in Basename(name) && dir <= name
            && name == dir + "/mmap_pack_" + Decimal(index) + "_" + StripHardlink(Basename(path))
  {
    hide Decimal, CopyName, CopyBase, StripHardlink;
    var last := Basename(path);
    BasenameHasNoSlash(path);
    CopyBaseHasNoSlash(index, last);
    BasenameInside(dir, CopyBase(index, StripHardlink(last)));
    CopyNameText(dir, index, StripHardlink(last));
    CopyNameIs(dir, index, StripHardlink(last));
  }

  lemma CopyNameIs(dir: string, index: nat, last: string)
    ensures CopyName(dir, index, last) == dir + "/" + CopyBase(index, last)
  {
  }

  lemma CopyBaseHasNoSlash(index: nat, last: string)
    requires '/' !in last
    ensures '/' !in CopyBase(index, StripHardlink(last))
  {
    hide Decimal;
    if "mmap_hardlink_" <= last {
      StripHasNoSlash(last[14..]);
    }
    DecimalHasNoSlash(index);
  }

  lemma CopyNameText(dir: string, index: nat, last: string)
    ensures CopyName(dir, index, last) == dir + "/mmap_pack_" + Decimal(index) + "_" + last
    ensures "mmap_pack_" <= CopyBase(index, last)
  {
    hide Decimal;
    assert "/" + "mmap_pack_" == "/mmap_pack_";
    var d := Decimal(index);
    assert dir + "/" + ("mmap_pack_" + d + "_" + last) == dir + ("/" + "mmap_pack_") + d + "_" + last;
  }

  // ---- the order of names

  /** Strings in the order of their bytes, the order of the source's maps. */
  predicate Before(a: string, b: string) {
    b != [] && (a == [] || a[0] < b[0] || (a[0] == b[0] && Before(a[1..], b[1..])))
  }

  lemma {:induction false} Trichotomy(a: string, b: string)
    ensures a == b || Before(a, b) || Before(b, a)
    ensures !(Before(a, b) && Before(b, a)) && !Before(a, a)
  {
    if a != [] && b != [] && a[0] == b[0] {
      Trichotomy(a[1..], b[1..]);
      if a[1..] == b[1..] {
        assert a == [a[0]] + a[1..] && b == [b[0]] + b[1..];
      }
    }
    if a != [] {
      Trichotomy(a[1..], a[1..]);
    }
  }

  lemma {:induction false} Transitive(a: string, b: string, c: string)
    requires Before(a, b) && Before(b, c)
    ensures Before(a, c)
  {
    if a != [] && a[0] == b[0] && b[0] == c[0] {
      Transitive(a[1..], b[1..], c[1..]);
    }
  }

  predicate IsLeast(s: set<string>, p: string) { p in s && forall q :: q in s ==> q == p || Before(p, q) }

  lemma LeastExists(s: set<string>) returns (p: string)
    requires s != {}
    ensures IsLeast(s, p)
    decreases |s|
  {
    p :| p in s;
    if s != {p} {
      var rest := s - {p};
      assert rest != {};
      var q := LeastExists(rest);
      Trichotomy(p, q);
      if Before(q, p) {
        p := q;
      } else {
        forall r | r in s
          ensures r == p || Before(p, r)
        {
          if r != p && r != q {
            Transitive(p, q, r);
          }
        }
      }
    }
  }
}
