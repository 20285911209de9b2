/**
 * Array dot syntax: addressing a nested PHP array with a path such as "drinks.softdrink".
 * The library takes `ads_get` and `ads_set` from a helper trait whose code is not part of
 * this model; they are defined here as the library uses them: the path is split on '.',
 * each segment selects one level (a segment spelling an integer selects an integer key,
 * as PHP's own array access does), a missing level reads as null, and writing creates the
 * missing levels (replacing a non-array found on the way).
 */
module DotSyntax {
  import opened PhpValues

  /** `explode('.', $path)`. */
  function Split(s: string): (parts: seq<string>)
    ensures |parts| >= 1
    ensures forall i :: 0 <= i < |parts| ==> '.' !in parts[i]
  {
    if s == [] then [""]
    else
      var rest := Split(s[1..]);
      if s[0] == '.' then [""] + rest else [[s[0]] + rest[0]] + rest[1..]
  }

  /** `implode('.', $parts)`. */
  function Join(parts: seq<string>): string
    requires |parts| >= 1
  {
    if |parts| == 1 then parts[0] else parts[0] + "." + Join(parts[1..])
  }

  lemma {:induction false} JoinSplit(s: string)
    ensures Join(Split(s)) == s
  {
    if s != [] {
      JoinSplit(s[1..]);
      var rest := Split(s[1..]);
      if s[0] == '.' {
        assert ([""] + rest)[1..] == rest;
      } else {
        var parts := [[s[0]] + rest[0]] + rest[1..];
        assert s == [s[0]] + s[1..];
        if |rest| == 1 {
          assert Join(parts) == [s[0]] + rest[0];
        } else {
          assert parts[1..] == rest[1..];
          assert Join(rest) == rest[0] + "." + Join(rest[1..]);
          assert Join(parts) == ([s[0]] + rest[0]) + "." + Join(rest[1..]);
          assert Join(parts) == [s[0]] + (rest[0] + "." + Join(rest[1..]));
        }
      }
    }
  }

  lemma {:induction false} SplitPrefix(a: string, b: string)
    requires '.' !in a
    ensures Split(a + b) == [a + Split(b)[0]] + Split(b)[1..]
  {
    if a != [] {
      SplitPrefix(a[1..], b);
      assert (a + b)[1..] == a[1..] + b;
      assert [a[0]] + (a[1..] + Split(b)[0]) == a + Split(b)[0];
    } else {
      assert a + b == b;
      assert a + Split(b)[0] == Split(b)[0];
      assert Split(b) == [Split(b)[0]] + Split(b)[1..];
    }
  }

  lemma {:induction false} SplitJoin(parts: seq<string>)
    requires |parts| >= 1 && forall i :: 0 <= i < |parts| ==> '.' !in parts[i]
    ensures Split(Join(parts)) == parts
  {
    if |parts| == 1 {
      SplitPrefix(parts[0], "");
      assert parts[0] + "" == parts[0];
      assert Split("") == [""];
      assert Split(Join(parts)) == [parts[0]];
    } else {
      SplitJoin(parts[1..]);
      var t := Join(parts[1..]);
      SplitPrefix(parts[0], "." + t);
      assert parts[0] + "." + t == parts[0] + ("." + t);
      assert ("." + t)[1..] == t;
      assert Split("." + t) == [""] + Split(t);
      assert Split("." + t)[0] == "" && Split("." + t)[1..] == Split(t);
      assert parts[0] + "" == parts[0];
      assert Join(parts) == parts[0] + "." + t;
      assert parts == [parts[0]] + parts[1..];
    }
  }

  /** The value one level down under segment `seg`; null when there is no such level. */
  function Child(v: Value, seg: string): Value
  {
    if v.Arr? then
      match Lookup(v.entries, KeyOfString(seg))
      case Some(c) => c
      case None => Null
    else Null
  }

  /** The value at a path of segments; anything missing on the way reads as null. */
  function GetPath(v: Value, segs: seq<string>): Value
    decreases |segs|
  {
    if segs == [] then v else GetPath(Child(v, segs[0]), segs[1..])
  }

  /** `ads_get($data, $path)`. */
  function AdsGet(v: Value, path: string): Value
  {
    GetPath(v, Split(path))
  }

  /** The value with the one at `segs` replaced by `x`, missing levels created as arrays. */
  function SetPath(v: Value, segs: seq<string>, x: Value): Value
    decreases |segs|
  {
    if segs == [] then x
    else
      var base := if v.Arr? then v.entries else [];
      Arr(Put(base, KeyOfString(segs[0]), SetPath(Child(v, segs[0]), segs[1..], x)))
  }

  /** `ads_set($data, $path, $x)`. */
  function AdsSet(v: Value, path: string, x: Value): (r: Value)
    ensures r.Arr?
  {
    SetPath(v, Split(path), x)
  }

  /** Reading back the path just written gives the value written. */
  lemma {:induction false} GetSetPath(v: Value, segs: seq<string>, x: Value)
    ensures GetPath(SetPath(v, segs, x), segs) == x
    decreases |segs|
  {
    if segs != [] {
      GetSetPath(Child(v, segs[0]), segs[1..], x);
    }
  }

  /** Writing under one segment leaves the level under any other key as it was. */
  lemma ChildOther(v: Value, seg: string, other: string, w: Value)
    requires KeyOfString(seg) != KeyOfString(other)
    ensures Child(Arr(Put(if v.Arr? then v.entries else [], KeyOfString(seg), w)), other) == Child(v, other)
  {
    var base := if v.Arr? then v.entries else [];
    PutOther(base, KeyOfString(seg), w, KeyOfString(other));
    if !v.Arr? {
      assert Lookup(base, KeyOfString(other)) == None;
    }
  }

  /** Writing under a segment and reading it back gives the level written. */
  lemma ChildSame(v: Value, seg: string, w: Value)
    ensures Child(Arr(Put(if v.Arr? then v.entries else [], KeyOfString(seg), w)), seg) == w
  {
  }

  /**
   * Writing one path leaves every path that branches off it unchanged: `q` agrees with
   * `p` on the first `d` segments and differs from it at segment `d`.
   */
  lemma {:induction false} SetPathFrame(v: Value, p: seq<string>, q: seq<string>, x: Value, d: nat)
    requires d < |p| && d < |q|
    requires p[..d] == q[..d] && p[d] != q[d]
    ensures GetPath(SetPath(v, p, x), q) == GetPath(v, q)
    decreases d
  {
    var c := Child(v, p[0]);
    var w := SetPath(c, p[1..], x);
    if d == 0 {
      if KeyOfString(p[0]) == KeyOfString(q[0]) {
        KeyOfStringInjective(p[0], q[0]);
      }
      ChildOther(v, p[0], q[0], w);
    } else {
      assert p[0] == p[..d][0] == q[0];
      assert p[1..][..d - 1] == p[..d][1..] == q[..d][1..] == q[1..][..d - 1];
      SetPathFrame(c, p[1..], q[1..], x, d - 1);
      ChildSame(v, p[0], w);
      assert GetPath(SetPath(v, p, x), q) == GetPath(w, q[1..]);
      assert GetPath(v, q) == GetPath(c, q[1..]);
    }
  }

  lemma AdsGetSet(v: Value, path: string, x: Value)
    ensures AdsGet(AdsSet(v, path, x), path) == x
  {
    GetSetPath(v, Split(path), x);
  }

  /** Writing a field leaves every field under a different first segment as it was. */
  lemma AdsSetFrame(v: Value, path: string, other: string, x: Value)
    requires Split(path)[0] != Split(other)[0]
    ensures AdsGet(AdsSet(v, path, x), other) == AdsGet(v, other)
  {
    SetPathFrame(v, Split(path), Split(other), x, 0);
  }

  /** At the top level, writing a field touches only the key of its first segment. */
  lemma AdsSetTopLevel(a: seq<Entry>, path: string, x: Value, k: Key)
    requires k != KeyOfString(Split(path)[0])
    ensures AdsSet(Arr(a), path, x).Arr?
    ensures Lookup(AdsSet(Arr(a), path, x).entries, k) == Lookup(a, k)
  {
    var segs := Split(path);
    PutOther(a, KeyOfString(segs[0]), SetPath(Child(Arr(a), segs[0]), segs[1..], x), k);
  }
}
