/**
 * The option and result types of the model, and two folds that several of
 * the scripts' loops perform: "keep the values that are present" and
 * "assign keys of a dictionary one after the other".
 */
module Results {

  datatype Option<T> = None | Some(value: T)

  datatype Result<T> = Ok(value: T) | Err(message: string)

  /** How a script's `main` ends: the status it returns, or the exception it
      lets escape. */
  datatype ScriptExit = Status(code: int) | Raised(message: string)

  /** The values `f` gives for the elements of `xs`, in order, leaving out the
      elements for which it gives `None`. */
  function FilterMap<A, B>(xs: seq<A>, f: A -> Option<B>): (r: seq<B>)
    ensures |r| <= |xs|
  {
    if xs == [] then [] else
      var init := FilterMap(xs[..|xs| - 1], f);
      match f(xs[|xs| - 1])
      case None => init
      case Some(y) => init + [y]
  }

  /** The fold works element by element. */
  lemma {:induction false} FilterMapAppend<A, B>(xs: seq<A>, ys: seq<A>, f: A -> Option<B>)
    ensures FilterMap(xs + ys, f) == FilterMap(xs, f) + FilterMap(ys, f)
    decreases |ys|
  {
    if ys == [] {
      assert xs + ys == xs;
    } else {
      var init := ys[..|ys| - 1];
      assert (xs + ys)[..|xs + ys| - 1] == xs + init;
      assert (xs + ys)[|xs + ys| - 1] == ys[|ys| - 1];
      FilterMapAppend(xs, init, f);
    }
  }

  /** Every value kept is the value of one of the elements. */
  lemma {:induction false} FilterMapFrom<A, B>(xs: seq<A>, f: A -> Option<B>, k: nat)
    requires k < |FilterMap(xs, f)|
    ensures exists j :: 0 <= j < |xs| && f(xs[j]) == Some(FilterMap(xs, f)[k])
  {
    var init := xs[..|xs| - 1];
    var r := FilterMap(xs, f);
    var ri := FilterMap(init, f);
    if k < |ri| {
      FilterMapFrom(init, f, k);
      var j :| 0 <= j < |init| && f(init[j]) == Some(ri[k]);
      assert xs[j] == init[j];
      assert r[k] == ri[k];
    }
  }

  /** Every element whose value is present gives an element of the result. */
  lemma {:induction false} FilterMapKeeps<A, B>(xs: seq<A>, f: A -> Option<B>, j: nat)
    requires j < |xs| && f(xs[j]).Some?
    ensures f(xs[j]).value in FilterMap(xs, f)
  {
    var init := xs[..|xs| - 1];
    if j < |xs| - 1 {
      assert init[j] == xs[j];
      FilterMapKeeps(init, f, j);
    }
  }

  /** The `i`-th assignment sets `key`. */
  predicate AssignsAt<K(==), V>(us: seq<Option<(K, V)>>, i: nat, key: K)
    requires i < |us|
  {
    us[i].Some? && us[i].value.0 == key
  }

  /** The dictionary `m` after the assignments `us`, in order (`None`
      assigns nothing): `for k, v in us: m[k] = v`. */
  function Assign<K(==), V>(m: map<K, V>, us: seq<Option<(K, V)>>): (r: map<K, V>)
    ensures m.Keys <= r.Keys
  {
    if us == [] then m else
      var init := Assign(m, us[..|us| - 1]);
      match us[|us| - 1]
      case None => init
      case Some(u) => init[u.0 := u.1]
  }

  /** The last assignment to `key`, if any. */
  function LastAssign<K(==), V>(us: seq<Option<(K, V)>>, key: K): (r: Option<nat>)
    ensures r.Some? ==> r.value < |us| && AssignsAt(us, r.value, key)
  {
    if us == [] then None
    else if AssignsAt(us, |us| - 1, key) then Some(|us| - 1)
    else LastAssign(us[..|us| - 1], key)
  }

  /** No assignment after the one `LastAssign` finds sets `key`, and it finds
      none exactly when no assignment sets `key`. */
  lemma {:induction false} LastAssignIsLast<K, V>(us: seq<Option<(K, V)>>, key: K)
    ensures LastAssign(us, key).Some? ==>
      forall j :: LastAssign(us, key).value < j < |us| ==> !AssignsAt(us, j, key)
    ensures LastAssign(us, key).None? ==> forall j :: 0 <= j < |us| ==> !AssignsAt(us, j, key)
  {
    if us != [] && !AssignsAt(us, |us| - 1, key) {
      var init := us[..|us| - 1];
      LastAssignIsLast(init, key);
      assert forall j :: 0 <= j < |init| ==> init[j] == us[j] && (AssignsAt(init, j, key) <==> AssignsAt(us, j, key));
    }
  }

  /** The last assignment to a key wins; a key no assignment sets keeps its value. */
  lemma {:induction false} AssignValue<K, V>(m: map<K, V>, us: seq<Option<(K, V)>>, key: K)
    requires key in m
    ensures key in Assign(m, us)
    ensures Assign(m, us)[key] ==
      match LastAssign(us, key)
      case None => m[key]
      case Some(i) => us[i].value.1
  {
    if us != [] {
      var init := us[..|us| - 1];
      AssignValue(m, init, key);
      if !AssignsAt(us, |us| - 1, key) {
        var lastInit := LastAssign(init, key);
        if lastInit.Some? {
          assert init[lastInit.value] == us[lastInit.value];
        }
      }
    }
  }

  /** One more assignment at the end. */
  lemma AssignSnoc<K, V>(m: map<K, V>, us: seq<Option<(K, V)>>, u: Option<(K, V)>)
    ensures Assign(m, us + [u]) == match u case None => Assign(m, us) case Some(p) => Assign(m, us)[p.0 := p.1]
  {
    assert (us + [u])[..|us|] == us;
  }
}
