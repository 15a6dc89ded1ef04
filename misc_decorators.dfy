/** The argument logic of the two decorators in gorilla/core/misc.py:
    `check_prerequisites` collects the prerequisites its checker rejects and
    refuses the call when there are any; `deprecated_api_warning` renames
    deprecated keyword arguments before the call. */
module MiscDecorators {
  import opened Python

  /** The `prerequisites` argument: one name, or a list of names. */
  datatype Prerequisites = One(name: string) | Many(names: seq<string>)

  /** `[prerequisites]` for a single string, else the list itself. */
  function Requirements(p: Prerequisites): (reqs: seq<string>)
    ensures p.One? ==> |reqs| == 1 && reqs[0] == p.name
    ensures p.Many? ==> reqs == p.names
  {
    match p
    case One(n) => [n]
    case Many(ns) => ns
  }

  /** The requirements that `checker` rejects, in their original order. */
  function Missing(reqs: seq<string>, checker: string -> bool): (m: seq<string>)
    ensures |m| <= |reqs|
    ensures forall x :: x in m <==> x in reqs && !checker(x)
    decreases |reqs|
  {
    if reqs == [] then []
    else
      assert forall x :: x in reqs <==> x == reqs[0] || x in reqs[1..];
      (if checker(reqs[0]) then [] else [reqs[0]]) + Missing(reqs[1..], checker)
  }

  /** Filtering keeps order: the missing items of a concatenation are the
      missing items of each part, one after the other. */
  lemma {:induction false} MissingAppend(a: seq<string>, b: seq<string>, checker: string -> bool)
    ensures Missing(a + b, checker) == Missing(a, checker) + Missing(b, checker)
    decreases |a|
  {
    if a == [] {
      assert a + b == b;
    } else {
      assert (a + b)[0] == a[0];
      assert (a + b)[1..] == a[1..] + b;
      MissingAppend(a[1..], b, checker);
    }
  }

  /** One more requirement either joins the missing list or not. */
  lemma MissingStep(reqs: seq<string>, i: nat, checker: string -> bool)
    requires i < |reqs|
    ensures Missing(reqs[..i + 1], checker) == Missing(reqs[..i], checker) + (if checker(reqs[i]) then [] else [reqs[i]])
  {
    assert reqs[..i + 1] == reqs[..i] + [reqs[i]];
    MissingAppend(reqs[..i], [reqs[i]], checker);
    assert [reqs[i]][1..] == [];
  }

  /** Nothing is missing exactly when the checker accepts every requirement. */
  lemma MissingEmptyIff(reqs: seq<string>, checker: string -> bool)
    ensures Missing(reqs, checker) == [] <==> forall i :: 0 <= i < |reqs| ==> checker(reqs[i])
  {
    var m := Missing(reqs, checker);
    if m != [] {
      assert m[0] in m;
    }
  }

  /** The wrapped call of `check_prerequisites(prerequisites, checker)`:
      the missing list it reports, and whether it goes on to call the
      decorated function (`Pass`) or raises RuntimeError. */
  method CheckPrerequisites(p: Prerequisites, checker: string -> bool) returns (missing: seq<string>, r: Outcome)
    ensures missing == Missing(Requirements(p), checker)
    ensures r == Pass <==> forall i :: 0 <= i < |Requirements(p)| ==> checker(Requirements(p)[i])
    ensures r == if missing == [] then Pass else Fail(RuntimeError)
  {
    var requirements := Requirements(p);
    missing := [];
    for i := 0 to |requirements|
      invariant missing == Missing(requirements[..i], checker)
    {
      var item := requirements[i];
      MissingStep(requirements, i, checker);
      if !checker(item) {
        missing := missing + [item];
      }
    }
    assert requirements[..|requirements|] == requirements;
    MissingEmptyIff(requirements, checker);
    if missing != [] {
      return missing, Fail(RuntimeError);
    }
    r := Pass;
  }

  /** `kwargs[dst] = kwargs.pop(src)` when `src` is a keyword argument. */
  function RenameOne<V>(kwargs: map<string, V>, src: string, dst: string): (r: map<string, V>)
    ensures src !in kwargs ==> r == kwargs
    ensures src in kwargs ==> dst in r && r[dst] == kwargs[src] && (src != dst ==> src !in r)
    ensures forall k :: k != src && k != dst ==> (k in r <==> k in kwargs) && (k in kwargs ==> r[k] == kwargs[k])
    ensures |r| <= |kwargs|
  {
    if src in kwargs then (kwargs - {src})[dst := kwargs[src]] else kwargs
  }

  /** The renaming of `deprecated_api_warning`, pair by pair in the order of
      `name_dict`. */
  function RenameAll<V>(kwargs: map<string, V>, nameDict: seq<(string, string)>): (r: map<string, V>)
    ensures |r| <= |kwargs|
    ensures kwargs == map[] ==> r == map[]
    decreases |nameDict|
  {
    if nameDict == [] then kwargs
    else RenameAll(RenameOne(kwargs, nameDict[0].0, nameDict[0].1), nameDict[1..])
  }

  /** The keyword-argument rewrite in `new_func` of
      `deprecated_api_warning(name_dict)`. */
  method RenameDeprecatedKwargs<V>(nameDict: seq<(string, string)>, kwargs: map<string, V>) returns (out: map<string, V>)
    ensures out == RenameAll(kwargs, nameDict)
  {
    out := kwargs;
    if out == map[] {
      return;
    }
    for i := 0 to |nameDict|
      invariant RenameAll(out, nameDict[i..]) == RenameAll(kwargs, nameDict)
    {
      assert nameDict[i..][1..] == nameDict[i + 1..];
      var (src, dst) := nameDict[i];
      if src in out {
        var value := out[src];
        out := out - {src};
        out := out[dst := value];
      }
    }
  }

  /** A keyword that no pair names, as source or as destination, keeps its
      value, and is absent when it was absent. */
  lemma {:induction false} RenameUntouched<V>(kwargs: map<string, V>, nameDict: seq<(string, string)>, k: string)
    requires forall i :: 0 <= i < |nameDict| ==> nameDict[i].0 != k && nameDict[i].1 != k
    ensures k in RenameAll(kwargs, nameDict) <==> k in kwargs
    ensures k in kwargs ==> RenameAll(kwargs, nameDict)[k] == kwargs[k]
    decreases |nameDict|
  {
    if nameDict != [] {
      assert forall i :: 1 <= i < |nameDict| ==> nameDict[1..][i - 1] == nameDict[i];
      RenameUntouched(RenameOne(kwargs, nameDict[0].0, nameDict[0].1), nameDict[1..], k);
    }
  }

  /** A deprecated name that is not also some pair's new name is gone
      after the renaming. */
  lemma {:induction false} RenameRemovesSource<V>(kwargs: map<string, V>, nameDict: seq<(string, string)>, i: nat)
    requires i < |nameDict|
    requires forall j :: 0 <= j < |nameDict| ==> nameDict[j].1 != nameDict[i].0
    ensures nameDict[i].0 !in RenameAll(kwargs, nameDict)
    decreases |nameDict|
  {
    var src := nameDict[i].0;
    var next := RenameOne(kwargs, nameDict[0].0, nameDict[0].1);
    var rest := nameDict[1..];
    assert forall j :: 1 <= j < |nameDict| ==> rest[j - 1] == nameDict[j];
    if i > 0 {
      RenameRemovesSource(next, rest, i - 1);
    } else {
      assert src !in next;
      RenameUntouchedAbsent(next, rest, src);
    }
  }

  /** A name that is no pair's new name is never added. */
  lemma {:induction false} RenameUntouchedAbsent<V>(kwargs: map<string, V>, nameDict: seq<(string, string)>, k: string)
    requires k !in kwargs
    requires forall j :: 0 <= j < |nameDict| ==> nameDict[j].1 != k
    ensures k !in RenameAll(kwargs, nameDict)
    decreases |nameDict|
  {
    if nameDict != [] {
      assert forall j :: 1 <= j < |nameDict| ==> nameDict[1..][j - 1] == nameDict[j];
      RenameUntouchedAbsent(RenameOne(kwargs, nameDict[0].0, nameDict[0].1), nameDict[1..], k);
    }
  }

  /** The names of `name_dict` are all different: no two pairs share a
      deprecated name or a new name, and no new name is a deprecated one. */
  predicate DistinctNames(nameDict: seq<(string, string)>) {
    forall i, j :: 0 <= i < |nameDict| && 0 <= j < |nameDict| ==>
      && nameDict[i].0 != nameDict[j].1
      && (i != j ==> nameDict[i].0 != nameDict[j].0 && nameDict[i].1 != nameDict[j].1)
  }

  /** With all names different and no new name already passed, each
      deprecated keyword's value arrives under its new name, and a new name
      is present only when its deprecated name was. */
  lemma {:induction false} RenameMovesValues<V>(kwargs: map<string, V>, nameDict: seq<(string, string)>, i: nat)
    requires DistinctNames(nameDict)
    requires forall j :: 0 <= j < |nameDict| ==> nameDict[j].1 !in kwargs
    requires i < |nameDict|
    ensures nameDict[i].1 in RenameAll(kwargs, nameDict) <==> nameDict[i].0 in kwargs
    ensures nameDict[i].0 in kwargs ==> RenameAll(kwargs, nameDict)[nameDict[i].1] == kwargs[nameDict[i].0]
    decreases |nameDict|
  {
    var (src, dst) := nameDict[0];
    var next := RenameOne(kwargs, src, dst);
    var rest := nameDict[1..];
    assert forall j :: 1 <= j < |nameDict| ==> rest[j - 1] == nameDict[j];
    assert DistinctNames(rest);
    if i > 0 {
      assert forall j :: 0 <= j < |rest| ==> rest[j].1 !in next;
      assert (nameDict[i].0 in next <==> nameDict[i].0 in kwargs);
      assert nameDict[i].0 in kwargs ==> next[nameDict[i].0] == kwargs[nameDict[i].0];
      RenameMovesValues(next, rest, i - 1);
    } else {
      RenameUntouched(next, rest, dst);
    }
  }
}
