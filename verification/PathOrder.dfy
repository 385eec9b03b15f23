/** Byte-wise order of names and paths, as the listing and the directories use it. */
module PathOrder {

  predicate Less(a: string, b: string) {
    b != [] && (a == [] || a[0] < b[0] || (a[0] == b[0] && Less(a[1..], b[1..])))
  }

  lemma {:induction false} LessTransitive(a: string, b: string, c: string)
    requires Less(a, b) && Less(b, c)
    ensures Less(a, c)
  {
    if a != [] && a[0] == b[0] == c[0] {
      LessTransitive(a[1..], b[1..], c[1..]);
    }
  }

  lemma {:induction false} LessOne(a: string, b: string)
    ensures !(Less(a, b) && Less(b, a))
    ensures a == b <==> !Less(a, b) && !Less(b, a)
  {
    if a != [] && b != [] && a[0] == b[0] {
      LessOne(a[1..], b[1..]);
      assert a == [a[0]] + a[1..] && b == [b[0]] + b[1..];
    }
  }

  lemma {:induction false} LessWithin(p: string, a: string, b: string)
    ensures Less(p + a, p + b) <==> Less(a, b)
  {
    if p == [] {
      assert p + a == a && p + b == b;
    } else {
      assert (p + a)[1..] == p[1..] + a && (p + b)[1..] == p[1..] + b;
      LessWithin(p[1..], a, b);
    }
  }

  /** A longer right-hand side stays greater. */
  lemma {:induction false} LessLonger(a: string, b: string, y: string)
    requires Less(a, b)
    ensures Less(a, b + y)
  {
    if a != [] && a[0] == b[0] {
      assert (b + y)[1..] == b[1..] + y;
      LessLonger(a[1..], b[1..], y);
    }
  }

  lemma LessExtended(a: string, x: string)
    requires x != []
    ensures Less(a, a + x)
  {
    LessWithin(a, [], x);
    assert a + [] == a;
  }

  /** Unless `a` is the start of `b`, what follows each does not matter. */
  lemma {:induction false} LessApart(a: string, b: string, x: string, y: string)
    requires Less(a, b) && !(a <= b)
    ensures Less(a + x, b + y)
  {
    assert a != [];
    assert (a + x)[0] == a[0] && (b + y)[0] == b[0];
    if a[0] == b[0] {
      assert (a + x)[1..] == a[1..] + x && (b + y)[1..] == b[1..] + y;
      assert a[1..] <= b[1..] ==> a <= b by {
        assert a == [a[0]] + a[1..] && b == [b[0]] + b[1..];
      }
      LessApart(a[1..], b[1..], x, y);
    }
  }

  /** What lies between a prefix and a path that starts with it starts with it too. */
  lemma {:induction false} BetweenHasPrefix(prefix: string, f: string, p: string)
    requires Less(prefix, f) && (f == p || Less(f, p)) && prefix <= p
    ensures prefix <= f
  {
    if prefix != [] {
      assert prefix[0] == p[0] == f[0];
      BetweenHasPrefix(prefix[1..], f[1..], p[1..]);
      assert prefix == [prefix[0]] + prefix[1..] && f == [f[0]] + f[1..];
    }
  }

  /** Two starts of one path, one is the start of the other. */
  lemma StartsOfOne(a: string, b: string, p: string)
    requires a <= p && b <= p
    ensures a <= b || b <= a
  {
  }

  // ----- names -----

  /** A name of a directory entry: not empty, and without a slash. */
  predicate IsName(n: string) {
    n != "" && '/' !in n
  }

  lemma SlashedIsNoStart(a: string, m: string)
    requires IsName(m)
    ensures !(a + "/" <= m) && a + "/" != m
  {
    assert (a + "/")[|a|] == '/';
    assert |a| < |m| ==> m[|a|] in m;
  }

  /** Everything in directory `a` comes before an entry that comes after "a/". */
  lemma InsideBefore(p: string, a: string, x: string, m: string, y: string)
    requires IsName(m) && Less(a + "/", m)
    ensures Less(p + a + "/" + x, p + m + y)
  {
    SlashedIsNoStart(a, m);
    LessApart(a + "/", m, x, y);
    LessWithin(p, a + "/" + x, m + y);
    assert p + a + "/" + x == p + (a + "/" + x) && p + m + y == p + (m + y);
  }

  /** Everything of an entry that comes later in the directory comes later. */
  lemma EntryBefore(p: string, a: string, m: string, y: string)
    requires Less(a, m)
    ensures Less(p + a, p + m + y)
  {
    LessLonger(a, m, y);
    LessWithin(p, a, m + y);
    assert p + m + y == p + (m + y);
  }

  /** `b` comes between `a` and "a/" only by extending `a` with a byte below the slash. */
  lemma {:induction false} BelowSlashExtends(a: string, b: string)
    requires Less(a, b) && Less(b, a + "/")
    ensures a <= b && |a| < |b| && b[|a|] < '/'
  {
    if a == [] {
      assert a + "/" == "/" && (a + "/")[1..] == [];
    } else {
      assert (a + "/")[1..] == a[1..] + "/";
      BelowSlashExtends(a[1..], b[1..]);
      assert a == [a[0]] + a[1..] && b == [b[0]] + b[1..];
    }
  }

  // ----- ascending sequences -----

  ghost predicate Ascending(s: seq<string>) {
    forall i, j :: 0 <= i < j < |s| ==> Less(s[i], s[j])
  }

  lemma AscendingConcat(a: seq<string>, b: seq<string>)
    ensures Ascending(a + b) <==> Ascending(a) && Ascending(b) && forall x, y :: x in a && y in b ==> Less(x, y)
  {
    if Ascending(a + b) {
      forall i, j | 0 <= i < j < |a| ensures Less(a[i], a[j]) {
        assert (a + b)[i] == a[i] && (a + b)[j] == a[j];
      }
      forall i, j | 0 <= i < j < |b| ensures Less(b[i], b[j]) {
        assert (a + b)[|a| + i] == b[i] && (a + b)[|a| + j] == b[j];
      }
      forall x, y | x in a && y in b ensures Less(x, y) {
        var i :| 0 <= i < |a| && a[i] == x;
        var j :| 0 <= j < |b| && b[j] == y;
        assert (a + b)[i] == x && (a + b)[|a| + j] == y;
      }
    }
    if Ascending(a) && Ascending(b) && forall x, y :: x in a && y in b ==> Less(x, y) {
      forall i, j | 0 <= i < j < |a + b| ensures Less((a + b)[i], (a + b)[j]) {
        assert i < |a| <= j ==> a[i] in a && b[j - |a|] in b;
      }
    }
  }

  /** An ascending sequence is determined by its elements. */
  lemma {:induction false} AscendingUnique(a: seq<string>, b: seq<string>)
    requires Ascending(a) && Ascending(b) && forall x :: x in a <==> x in b
    ensures a == b
  {
    assert (a != [] ==> a[0] in a) && (b != [] ==> b[0] in b);
    if a != [] {
      FirstIsLeast(a, b[0]);
      FirstIsLeast(b, a[0]);
      LessOne(a[0], b[0]);
      NotAgain(a);
      NotAgain(b);
      assert a == [a[0]] + a[1..] && b == [b[0]] + b[1..];
      forall x ensures x in a[1..] <==> x in b[1..] {
        assert x in a <==> x == a[0] || x in a[1..];
        assert x in b <==> x == b[0] || x in b[1..];
      }
      AscendingUnique(a[1..], b[1..]);
    }
  }

  lemma FirstIsLeast(a: seq<string>, x: string)
    requires Ascending(a) && x in a
    ensures x == a[0] || Less(a[0], x)
  {
    var i :| 0 <= i < |a| && a[i] == x;
  }

  lemma NotAgain(a: seq<string>)
    requires Ascending(a) && a != []
    ensures a[0] !in a[1..] && Ascending(a[1..])
  {
    LessOne(a[0], a[0]);
    assert forall i :: 0 <= i < |a[1..]| ==> a[1..][i] == a[i + 1] && Less(a[0], a[i + 1]);
  }
}
