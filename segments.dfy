/**
 * Tokenising route patterns and URLs on `/`.
 *
 * Both `addRoute` and `findRoute` split their path with the string's own
 * `split("/")`, make the path absolute by putting an empty root token in
 * front, and then ignore every empty token after the root. What survives is
 * the sequence of non-empty segments, `PathKeys` below, and it is the only
 * thing about a path that either operation depends on.
 */
module Segments {

  /** `s.split("/")`: the pieces of `s` between slashes, always at least one. */
  function Split(s: string): (r: seq<string>)
    ensures |r| >= 1
    ensures forall i :: 0 <= i < |r| ==> '/' !in r[i]
  {
    if s == [] then [""]
    else
      var rest := Split(s[1..]);
      if s[0] == '/' then [""] + rest
      else [[s[0]] + rest[0]] + rest[1..]
  }

  /** The inverse of `Split`: the pieces glued back together with `/`. */
  function Join(ps: seq<string>): string
    requires |ps| >= 1
  {
    if |ps| == 1 then ps[0] else ps[0] + "/" + Join(ps[1..])
  }

  /** The non-empty tokens of `ps`, in order. */
  function NonEmptySegments(ps: seq<string>): (r: seq<string>)
    ensures |r| <= |ps|
    ensures forall i :: 0 <= i < |r| ==> r[i] != "" && r[i] in ps
  {
    if ps == [] then []
    else (if ps[0] == "" then [] else [ps[0]]) + NonEmptySegments(ps[1..])
  }

  /** The segments a path stands for once the root is made explicit and
      empty segments are dropped. */
  function PathKeys(path: string): seq<string>
  {
    NonEmptySegments(Split(path))
  }

  /** Splitting and joining again gives back the string. */
  lemma {:induction false} JoinSplit(s: string)
    ensures Join(Split(s)) == s
  {
    if s != [] {
      JoinSplit(s[1..]);
      var rest := Split(s[1..]);
      if s[0] == '/' {
        assert Split(s) == [""] + rest;
        assert ([""] + rest)[1..] == rest;
        assert s == [s[0]] + s[1..];
      } else if |rest| == 1 {
        assert Split(s) == [[s[0]] + rest[0]];
        assert s == [s[0]] + s[1..];
      } else {
        var first := [s[0]] + rest[0];
        assert Split(s) == [first] + rest[1..];
        assert ([first] + rest[1..])[1..] == rest[1..];
        assert Join(rest) == rest[0] + "/" + Join(rest[1..]);
        assert s == [s[0]] + s[1..];
      }
    }
  }

  /** Joining slash-free pieces and splitting again gives back the pieces. */
  lemma {:induction false} SplitJoin(ps: seq<string>)
    requires |ps| >= 1
    requires forall i :: 0 <= i < |ps| ==> '/' !in ps[i]
    ensures Split(Join(ps)) == ps
  {
    if |ps| == 1 {
      SplitPiece(ps[0]);
    } else {
      SplitJoin(ps[1..]);
      SplitAround(ps[0], Join(ps[1..]));
      SplitPiece(ps[0]);
      assert [ps[0]] + ps[1..] == ps;
    }
  }

  /** A string without `/` splits into itself alone. */
  lemma {:induction false} SplitPiece(s: string)
    requires '/' !in s
    ensures Split(s) == [s]
  {
    if s != [] {
      assert '/' !in s[1..] by {
        forall i | 0 <= i < |s[1..]| ensures s[1..][i] != '/' {
          assert s[1..][i] == s[i + 1];
        }
      }
      SplitPiece(s[1..]);
      assert s == [s[0]] + s[1..];
    }
  }

  /** Splitting at an explicit `/` splits the two sides independently. */
  lemma {:induction false} SplitAround(a: string, b: string)
    ensures Split(a + "/" + b) == Split(a) + Split(b)
  {
    var s := a + "/" + b;
    if a == [] {
      assert s == "/" + b;
      assert s[1..] == b;
    } else {
      assert s[1..] == a[1..] + "/" + b;
      SplitAround(a[1..], b);
    }
  }

  /** Filtering distributes over concatenation. */
  lemma {:induction false} NonEmptyAppend(a: seq<string>, b: seq<string>)
    ensures NonEmptySegments(a + b) == NonEmptySegments(a) + NonEmptySegments(b)
  {
    if a == [] {
      assert a + b == b;
    } else {
      assert (a + b)[0] == a[0];
      assert (a + b)[1..] == a[1..] + b;
      NonEmptyAppend(a[1..], b);
    }
  }

  /** The keys of `a + "/" + b` are the keys of `a` followed by those of `b`. */
  lemma PathKeysAround(a: string, b: string)
    ensures PathKeys(a + "/" + b) == PathKeys(a) + PathKeys(b)
  {
    SplitAround(a, b);
    NonEmptyAppend(Split(a), Split(b));
  }

  /** The leading `/` is optional, a trailing `/` is ignored, a doubled
      `/` counts as one, and `/` alone stands for the root. */
  lemma SlashesCollapse(a: string, b: string)
    ensures PathKeys("/") == [] && PathKeys("") == []
    ensures PathKeys("/" + a) == PathKeys(a)
    ensures PathKeys(a + "/") == PathKeys(a)
    ensures PathKeys(a + "//" + b) == PathKeys(a + "/" + b)
  {
    PathKeysAround("", a);
    assert "" + "/" + a == "/" + a;
    PathKeysAround(a, "");
    assert a + "/" + "" == a + "/";
    PathKeysAround(a + "/", b);
    assert a + "/" + "/" + b == a + "//" + b;
    PathKeysAround(a, b);
  }
}
