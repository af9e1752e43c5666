/** A list of named values without repetition, and the finite map it stands for. */
module EnvMap {

  datatype Entry = Entry(name: string, value: string)

  predicate Unique(es: seq<Entry>) {
    forall i, j :: 0 <= i < j < |es| ==> es[i].name != es[j].name
  }

  /** The map that a list of entries stands for. */
  ghost function View(es: seq<Entry>): map<string, string> {
    if es == [] then map[] else View(es[..|es| - 1])[es[|es| - 1].name := es[|es| - 1].value]
  }

  ghost predicate Named(es: seq<Entry>, n: string) {
    exists i :: 0 <= i < |es| && es[i].name == n
  }

  ghost predicate Represents(es: seq<Entry>, m: map<string, string>) {
    && (forall i :: 0 <= i < |es| ==> es[i].name in m && m[es[i].name] == es[i].value)
    && (forall n :: n in m ==> Named(es, n))
  }

  lemma {:induction false} ViewRepresents(es: seq<Entry>)
    requires Unique(es)
    ensures Represents(es, View(es))
  {
    if es != [] {
      var front, last := es[..|es| - 1], es[|es| - 1];
      ViewRepresents(front);
      forall n | n in View(es) ensures Named(es, n) {
        if n == last.name {
          assert es[|es| - 1].name == n;
        } else {
          var i :| 0 <= i < |front| && front[i].name == n;
          assert es[i].name == n;
        }
      }
    }
  }

  lemma ViewIs(es: seq<Entry>, m: map<string, string>)
    requires Unique(es) && Represents(es, m)
    ensures View(es) == m
  {
    ViewRepresents(es);
    var v := View(es);
    forall n | n in v ensures n in m && v[n] == m[n] {
      var i :| 0 <= i < |es| && es[i].name == n;
    }
    forall n | n in m ensures n in v {
      var i :| 0 <= i < |es| && es[i].name == n;
    }
  }

  /** Rewriting an entry under its own name updates the map. */
  lemma ViewReplace(es: seq<Entry>, i: nat, val: string)
    requires Unique(es) && i < |es|
    ensures var es' := es[i := Entry(es[i].name, val)];
            Unique(es') && View(es') == View(es)[es[i].name := val]
  {
    var es' := es[i := Entry(es[i].name, val)];
    ViewRepresents(es);
    var m := View(es)[es[i].name := val];
    forall n | n in m ensures Named(es', n) {
      if n == es[i].name {
        assert es'[i].name == n;
      } else {
        var k :| 0 <= k < |es| && es[k].name == n;
        assert es'[k].name == n;
      }
    }
    ViewIs(es', m);
  }

  lemma ViewAppend(es: seq<Entry>, e: Entry)
    requires Unique(es) && !Named(es, e.name)
    ensures Unique(es + [e]) && View(es + [e]) == View(es)[e.name := e.value]
  {
    assert (es + [e])[..|es|] == es;
    forall i, j | 0 <= i < j < |es + [e]| ensures (es + [e])[i].name != (es + [e])[j].name {
      if j == |es| { assert es[i].name != e.name; }
    }
  }

  function Drop<T>(s: seq<T>, i: nat): (r: seq<T>)
    requires i < |s|
    ensures |r| == |s| - 1
  {
    s[..i] + s[i + 1..]
  }

  /** Where element `k` of the shortened list stood before. */
  function Before(i: nat, k: nat): nat { if k < i then k else k + 1 }

  lemma DropAt<T>(s: seq<T>, i: nat, k: nat)
    requires i < |s| && k < |s| - 1
    ensures Drop(s, i)[k] == s[Before(i, k)]
  {}

  lemma DropUnique(es: seq<Entry>, i: nat)
    requires Unique(es) && i < |es|
    ensures Unique(Drop(es, i))
  {
    var es' := Drop(es, i);
    forall j, k | 0 <= j < k < |es'| ensures es'[j].name != es'[k].name {
      DropAt(es, i, j);
      DropAt(es, i, k);
    }
  }

  /** Dropping an entry removes its name from the map, and nothing else. */
  lemma ViewRemove(es: seq<Entry>, i: nat)
    requires Unique(es) && i < |es|
    ensures Unique(Drop(es, i)) && View(Drop(es, i)) == View(es) - {es[i].name}
  {
    DropUnique(es, i);
    ViewRepresents(es);
    DropRepresents(es, i, View(es));
    ViewIs(Drop(es, i), View(es) - {es[i].name});
  }

  lemma DropRepresents(es: seq<Entry>, i: nat, m: map<string, string>)
    requires Unique(es) && i < |es| && Represents(es, m)
    ensures Represents(Drop(es, i), m - {es[i].name})
  {
    var es' := Drop(es, i);
    forall k | 0 <= k < |es'|
      ensures es'[k].name in m - {es[i].name} && (m - {es[i].name})[es'[k].name] == es'[k].value
    {
      DropAt(es, i, k);
      assert es[Before(i, k)].name != es[i].name;
    }
    forall n | n in m - {es[i].name} ensures Named(es', n) {
      var k :| 0 <= k < |es| && es[k].name == n;
      var k' := if k < i then k else k - 1;
      DropAt(es, i, k');
      assert es'[k'].name == n;
    }
  }

  lemma ViewLookup(es: seq<Entry>, n: string)
    requires Unique(es)
    ensures n in View(es) <==> Named(es, n)
    ensures forall i :: 0 <= i < |es| && es[i].name == n ==> n in View(es) && View(es)[n] == es[i].value
  {
    ViewRepresents(es);
  }
}
