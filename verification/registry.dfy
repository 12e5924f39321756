/** `ExpressionTranslatorRegistry`: the table from node kind to translator,
    built once from the translators' declared kinds, and the dispatch through
    it. The node type is a parameter, and so are a node's kind and its own
    default string (`Expression.ToString()`). */
module Registry {
  import opened Wrappers
  import opened Expressions

  /** A translator: the kinds it declares (`NodeTypes`) and what it renders
      for a node it is given, which may be null. */
  datatype Translator<!N> = Translator(nodeTypes: seq<ExpressionType>, translate: N -> Option<string>)

  /** One element of the flattened list: a kind and its translator. */
  datatype Entry<!N> = Entry(nodeType: ExpressionType, translator: Translator<N>)

  type Table<!N> = map<ExpressionType, Translator<N>>

  /** `SelectMany`: every translator's kinds in order, each paired with it. */
  function Entries<N>(ts: seq<Translator<N>>): (es: seq<Entry<N>>)
    decreases |ts|
  {
    if |ts| == 0 then []
    else
      seq(|ts[0].nodeTypes|, p requires 0 <= p < |ts[0].nodeTypes| => Entry(ts[0].nodeTypes[p], ts[0]))
        + Entries(ts[1..])
  }

  predicate NoDuplicates(ks: seq<ExpressionType>) {
    forall p, q :: 0 <= p < q < |ks| ==> ks[p] != ks[q]
  }

  function KeysOf<N>(es: seq<Entry<N>>): (ks: seq<ExpressionType>)
    ensures |ks| == |es| && forall p :: 0 <= p < |es| ==> ks[p] == es[p].nodeType
  {
    seq(|es|, p requires 0 <= p < |es| => es[p].nodeType)
  }

  /** `ToDictionary`: the entries inserted in order; a key already present
      makes the construction throw, reported here with that key. */
  function ToDictionary<N>(es: seq<Entry<N>>): (r: Result<Table<N>, ExpressionType>)
    ensures r.Ok? <==> NoDuplicates(KeysOf(es))
    ensures r.Ok? ==> forall k :: k in r.value <==> k in KeysOf(es)
    ensures r.Ok? ==> forall p :: 0 <= p < |es| ==> r.value[es[p].nodeType] == es[p].translator
    ensures r.Err? ==> exists p, q :: 0 <= p < q < |es| && es[p].nodeType == r.error && es[q].nodeType == r.error
    decreases |es|
  {
    if |es| == 0 then Ok(map[])
    else
      var front := es[..|es| - 1];
      var e := es[|es| - 1];
      assert forall p :: 0 <= p < |front| ==> front[p] == es[p];
      match ToDictionary(front)
      case Err(k) => Err(k)
      case Ok(m) =>
        if e.nodeType in m then Err(e.nodeType) else Ok(m[e.nodeType := e.translator])
  }

  /** The constructor: flatten, then build the dictionary. */
  function Build<N>(ts: seq<Translator<N>>): Result<Table<N>, ExpressionType> {
    ToDictionary(Entries(ts))
  }

  /** Translator `i` declares kind `k`. */
  predicate Declares<N>(ts: seq<Translator<N>>, i: int, k: ExpressionType) {
    0 <= i < |ts| && k in ts[i].nodeTypes
  }

  /** No translator lists a kind twice, and no two translators share one. */
  predicate KindSetsDisjoint<N>(ts: seq<Translator<N>>) {
    && (forall i :: 0 <= i < |ts| ==> NoDuplicates(ts[i].nodeTypes))
    && (forall i, j, k :: 0 <= i < j < |ts| && k in ts[i].nodeTypes ==> k !in ts[j].nodeTypes)
  }

  /** `Translate`: null gives null; a kind in the table goes to its
      translator; any other kind falls back to the node's own string. So a
      node renders as null only when its kind's translator returns null. */
  function Translate<N>(table: Table<N>, node: Option<N>, nodeType: N -> ExpressionType, toString: N -> string)
    : (r: Option<string>)
    ensures node.None? ==> r.None?
    ensures node.Some? && r.None? ==>
      nodeType(node.value) in table && table[nodeType(node.value)].translate(node.value).None?
  {
    match node
    case None => None
    case Some(n) =>
      if nodeType(n) in table then table[nodeType(n)].translate(n) else Some(toString(n))
  }

  // ---------------------------------------------------------------------
  // The flattened list

  /** Every declared kind, translator by translator. */
  ghost function Kinds<N>(ts: seq<Translator<N>>): seq<ExpressionType>
    decreases |ts|
  {
    if |ts| == 0 then [] else ts[0].nodeTypes + Kinds(ts[1..])
  }

  lemma {:induction false} EntriesKeys<N>(ts: seq<Translator<N>>)
    ensures KeysOf(Entries(ts)) == Kinds(ts)
    decreases |ts|
  {
    if |ts| > 0 {
      EntriesKeys(ts[1..]);
      var head := seq(|ts[0].nodeTypes|, p requires 0 <= p < |ts[0].nodeTypes| => Entry(ts[0].nodeTypes[p], ts[0]));
      assert Entries(ts) == head + Entries(ts[1..]);
      assert KeysOf(Entries(ts)) == KeysOf(head) + KeysOf(Entries(ts[1..]));
      assert KeysOf(head) == ts[0].nodeTypes;
    }
  }

  lemma {:induction false} KindsMembership<N>(ts: seq<Translator<N>>, k: ExpressionType)
    ensures k in Kinds(ts) <==> exists i :: Declares(ts, i, k)
    decreases |ts|
  {
    if |ts| > 0 {
      KindsMembership(ts[1..], k);
      assert Kinds(ts) == ts[0].nodeTypes + Kinds(ts[1..]);
      if k in ts[0].nodeTypes {
        assert Declares(ts, 0, k);
      }
      if k in Kinds(ts[1..]) {
        var i :| Declares(ts[1..], i, k);
        assert Declares(ts, i + 1, k);
      }
      if exists i :: Declares(ts, i, k) {
        var i :| Declares(ts, i, k);
        if i > 0 {
          assert ts[1..][i - 1] == ts[i];
          assert Declares(ts[1..], i - 1, k);
          assert k in Kinds(ts[1..]);
        } else {
          assert k in ts[0].nodeTypes;
        }
      }
    }
  }

  lemma {:induction false} EntriesCover<N>(ts: seq<Translator<N>>, i: int, k: ExpressionType)
    requires Declares(ts, i, k)
    ensures exists p | 0 <= p < |Entries(ts)| ::
      Entries(ts)[p].nodeType == k && Entries(ts)[p].translator == ts[i]
    decreases |ts|
  {
    var head := seq(|ts[0].nodeTypes|, p requires 0 <= p < |ts[0].nodeTypes| => Entry(ts[0].nodeTypes[p], ts[0]));
    var es := Entries(ts);
    assert es == head + Entries(ts[1..]);
    if i == 0 {
      var p :| 0 <= p < |ts[0].nodeTypes| && ts[0].nodeTypes[p] == k;
      assert es[p] == Entry(k, ts[0]);
    } else {
      assert ts[1..][i - 1] == ts[i];
      EntriesCover(ts[1..], i - 1, k);
      var p :| 0 <= p < |Entries(ts[1..])| &&
        Entries(ts[1..])[p].nodeType == k && Entries(ts[1..])[p].translator == ts[i];
      assert es[|head| + p] == Entries(ts[1..])[p];
    }
  }

  lemma NoDuplicatesAppend(a: seq<ExpressionType>, b: seq<ExpressionType>)
    ensures NoDuplicates(a + b) <==>
      NoDuplicates(a) && NoDuplicates(b) && forall x :: x in a ==> x !in b
  {
    var ab := a + b;
    if NoDuplicates(ab) {
      forall p, q | 0 <= p < q < |a|
        ensures a[p] != a[q]
      {
        assert ab[p] == a[p] && ab[q] == a[q];
      }
      forall p, q | 0 <= p < q < |b|
        ensures b[p] != b[q]
      {
        assert ab[|a| + p] == b[p] && ab[|a| + q] == b[q];
      }
      forall p, q | 0 <= p < |a| && 0 <= q < |b|
        ensures a[p] != b[q]
      {
        assert ab[p] == a[p] && ab[|a| + q] == b[q];
      }
    }
    if NoDuplicates(a) && NoDuplicates(b) && forall x :: x in a ==> x !in b {
      forall p, q | 0 <= p < q < |ab|
        ensures ab[p] != ab[q]
      {
        if q < |a| {
        } else if p >= |a| {
          assert ab[p] == b[p - |a|] && ab[q] == b[q - |a|];
        } else {
          assert ab[p] in a && ab[q] in b;
        }
      }
    }
  }

  /** The flattened kinds have no repeat exactly when the declared kind sets
      are repeat-free and pairwise disjoint. */
  lemma {:induction false} KindsDistinctIffDisjoint<N>(ts: seq<Translator<N>>)
    ensures NoDuplicates(Kinds(ts)) <==> KindSetsDisjoint(ts)
    decreases |ts|
  {
    if |ts| > 0 {
      var rest := ts[1..];
      KindsDistinctIffDisjoint(rest);
      NoDuplicatesAppend(ts[0].nodeTypes, Kinds(rest));
      assert forall i :: 0 <= i < |rest| ==> rest[i] == ts[i + 1];
      forall k
        ensures k in Kinds(rest) <==> exists i :: Declares(rest, i, k)
      {
        KindsMembership(rest, k);
      }
      if NoDuplicates(Kinds(ts)) {
        forall i, j, k | 0 <= i < j < |ts| && k in ts[i].nodeTypes
          ensures k !in ts[j].nodeTypes
        {
          if i == 0 {
            assert k in ts[j].nodeTypes ==> Declares(rest, j - 1, k);
          }
        }
      }
    }
  }

  // ---------------------------------------------------------------------
  // Properties of the registry

  /** Construction succeeds exactly when no kind is declared twice, by one
      translator or by two. */
  lemma BuildSucceedsIffDisjoint<N>(ts: seq<Translator<N>>)
    ensures Build(ts).Ok? <==> KindSetsDisjoint(ts)
  {
    EntriesKeys(ts);
    KindsDistinctIffDisjoint(ts);
  }

  /** A built table holds exactly the declared kinds, each mapped to the one
      translator that declares it. */
  lemma BuiltTable<N>(ts: seq<Translator<N>>)
    requires Build(ts).Ok?
    ensures forall k :: k in Build(ts).value <==> exists i :: Declares(ts, i, k)
    ensures forall i, k :: Declares(ts, i, k) ==> Build(ts).value[k] == ts[i]
    ensures forall i, j, k :: Declares(ts, i, k) && Declares(ts, j, k) ==> i == j
  {
    var table := Build(ts).value;
    EntriesKeys(ts);
    forall k
      ensures k in table <==> exists i :: Declares(ts, i, k)
    {
      KindsMembership(ts, k);
    }
    forall i, k | Declares(ts, i, k)
      ensures table[k] == ts[i]
    {
      EntriesCover(ts, i, k);
    }
    BuildSucceedsIffDisjoint(ts);
  }

  /** A node whose kind a translator declares is rendered by that translator. */
  lemma DispatchReachesDeclaringTranslator<N>(
    ts: seq<Translator<N>>, n: N, i: int, nodeType: N -> ExpressionType, toString: N -> string)
    requires Build(ts).Ok?
    requires Declares(ts, i, nodeType(n))
    ensures Translate(Build(ts).value, Some(n), nodeType, toString) == ts[i].translate(n)
  {
    BuiltTable(ts);
  }

  /** A node whose kind no translator declares is rendered by its own string,
      so dispatch never fails. */
  lemma DispatchFallsBack<N>(
    ts: seq<Translator<N>>, n: N, nodeType: N -> ExpressionType, toString: N -> string)
    requires Build(ts).Ok?
    requires forall i :: 0 <= i < |ts| ==> nodeType(n) !in ts[i].nodeTypes
    ensures Translate(Build(ts).value, Some(n), nodeType, toString) == Some(toString(n))
  {
    BuiltTable(ts);
  }

  /** Null is rendered as null whatever the table holds. */
  lemma NullConsultsNoTranslator<N>(
    t1: Table<N>, t2: Table<N>, nodeType: N -> ExpressionType, toString: N -> string)
    ensures Translate(t1, None, nodeType, toString) == None
    ensures Translate(t1, None, nodeType, toString) == Translate(t2, None, nodeType, toString)
  {
  }
}
