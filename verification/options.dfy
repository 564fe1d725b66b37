/** Optional values: the model's stand-in for Python's `None` and for a failed regex match. */
module Options {

  datatype Option<+T> = None | Some(value: T)

  /** The carried values of a sequence of options, in order: a list comprehension with an `if` filter. */
  function Somes<T>(xs: seq<Option<T>>): (ys: seq<T>)
    ensures |ys| <= |xs|
  {
    if xs == [] then [] else (if xs[0].Some? then [xs[0].value] else []) + Somes(xs[1..])
  }

  /** Filtering keeps order: the values of two runs are the values of each, one after the other. */
  lemma {:induction false} SomesAppend<T>(xs: seq<Option<T>>, ys: seq<Option<T>>)
    ensures Somes(xs + ys) == Somes(xs) + Somes(ys)
  {
    if xs == [] {
      assert xs + ys == ys;
    } else {
      var zs := xs + ys;
      assert zs[0] == xs[0] && zs[1..] == xs[1..] + ys;
      SomesAppend(xs[1..], ys);
      var head := if xs[0].Some? then [xs[0].value] else [];
      assert Somes(zs) == head + Somes(zs[1..]);
      assert Somes(xs) == head + Somes(xs[1..]);
    }
  }

  /** A value is kept exactly when some entry carries it. */
  lemma {:induction false} SomesMembership<T>(xs: seq<Option<T>>, v: T)
    ensures v in Somes(xs) <==> exists i :: 0 <= i < |xs| && xs[i] == Some(v)
  {
    if xs != [] {
      SomesMembership(xs[1..], v);
      if v in Somes(xs[1..]) {
        var i :| 0 <= i < |xs[1..]| && xs[1..][i] == Some(v);
        assert xs[i + 1] == xs[1..][i];
      }
      if exists i :: 0 <= i < |xs| && xs[i] == Some(v) {
        var i :| 0 <= i < |xs| && xs[i] == Some(v);
        if i > 0 {
          assert xs[1..][i - 1] == xs[i];
        }
      }
    }
  }

  /** When every entry carries a value, nothing is filtered out. */
  lemma {:induction false} SomesOfAll<T>(xs: seq<Option<T>>)
    requires forall i :: 0 <= i < |xs| ==> xs[i].Some?
    ensures |Somes(xs)| == |xs|
    ensures forall i :: 0 <= i < |xs| ==> Somes(xs)[i] == xs[i].value
  {
    if xs != [] {
      SomesOfAll(xs[1..]);
      assert Somes(xs) == [xs[0].value] + Somes(xs[1..]);
    }
  }
}
