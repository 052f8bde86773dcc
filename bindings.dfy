/** Name/value pairs and what inserting them into a map one after another leaves:
    both the element map filled from attribute captures and the environment map
    filled from `>>>name=value` declarations are built this way. */
module Bindings {

  datatype Binding = Binding(name: string, value: string)

  /** The map after inserting each binding of `bs`, in order, into `m`. */
  function InsertAll(m: map<string, string>, bs: seq<Binding>): map<string, string>
    decreases |bs|
  {
    if bs == [] then m
    else InsertAll(m, bs[..|bs| - 1])[bs[|bs| - 1].name := bs[|bs| - 1].value]
  }

  /** The names bound in `bs`. */
  function Names(bs: seq<Binding>): set<string> {
    set b | b in bs :: b.name
  }

  /** Inserting bindings adds exactly their names to the keys. */
  lemma {:induction false} InsertAllKeys(m: map<string, string>, bs: seq<Binding>)
    ensures InsertAll(m, bs).Keys == m.Keys + Names(bs)
    decreases |bs|
  {
    if bs != [] {
      var init := bs[..|bs| - 1];
      InsertAllKeys(m, init);
      assert bs == init + [bs[|bs| - 1]];
      assert Names(bs) == Names(init) + {bs[|bs| - 1].name};
    }
  }

  /** The last binding of a name decides its value: later bindings overwrite earlier ones. */
  lemma {:induction false} InsertAllLastWins(m: map<string, string>, bs: seq<Binding>, j: nat)
    requires j < |bs|
    requires forall k :: j < k < |bs| ==> bs[k].name != bs[j].name
    ensures bs[j].name in InsertAll(m, bs) && InsertAll(m, bs)[bs[j].name] == bs[j].value
    decreases |bs|
  {
    if j < |bs| - 1 {
      var init := bs[..|bs| - 1];
      assert init[j] == bs[j];
      InsertAllLastWins(m, init, j);
    }
  }

  /** A name no binding mentions keeps its value in `m`. */
  lemma {:induction false} InsertAllUntouched(m: map<string, string>, bs: seq<Binding>, n: string)
    requires forall k :: 0 <= k < |bs| ==> bs[k].name != n
    ensures n in InsertAll(m, bs) <==> n in m
    ensures n in m ==> InsertAll(m, bs)[n] == m[n]
    decreases |bs|
  {
    if bs != [] {
      InsertAllUntouched(m, bs[..|bs| - 1], n);
    }
  }

  /** Inserting `b` first and then `bs` is inserting `[b] + bs`. */
  lemma {:induction false} InsertAllCons(m: map<string, string>, b: Binding, bs: seq<Binding>)
    ensures InsertAll(m, [b] + bs) == InsertAll(m[b.name := b.value], bs)
    decreases |bs|
  {
    if bs != [] {
      var init := bs[..|bs| - 1];
      assert ([b] + bs)[..|bs|] == [b] + init;
      InsertAllCons(m, b, init);
    } else {
      assert ([b] + bs)[..0] == [];
    }
  }

  /** Inserting `a + b` is inserting `a` and then `b`. */
  lemma {:induction false} InsertAllAppend(m: map<string, string>, a: seq<Binding>, b: seq<Binding>)
    ensures InsertAll(m, a + b) == InsertAll(InsertAll(m, a), b)
    decreases |b|
  {
    if b == [] {
      assert a + b == a;
    } else {
      assert (a + b)[..|a + b| - 1] == a + b[..|b| - 1];
      assert (a + b)[|a + b| - 1] == b[|b| - 1];
      InsertAllAppend(m, a, b[..|b| - 1]);
    }
  }
}
