// Which Varnish Service implements an Ingress, and which Ingresses a Varnish
// Service implements. The workers of the namespaces answer these questions in
// two different ways.
module Resolution {
  import opened Prelude

  // A Service labelled as a Varnish Service.
  datatype Svc = Svc(namespace: string, name: string, uid: string)

  datatype Ing = Ing(namespace: string, name: string, annotations: map<string, string>)

  const INGRESS_CLASS := "kubernetes.io/ingress.class"
  const VARNISH_SVC := "ingress.varnish-cache.org/varnish-svc"

  datatype Malformed = Malformed(key: string)

  // All of the Varnish Services in a cluster. No two have the same key.
  ghost predicate Cluster(all: set<Svc>) {
    forall s, t :: s in all && t in all && s.namespace == t.namespace && s.name == t.name ==> s == t
  }

  ghost function InNamespace(all: set<Svc>, namespace: string): set<Svc> {
    set s | s in all && s.namespace == namespace
  }

  // What a lister returns: everything there is, in any order.
  ghost predicate Lists<T>(list: seq<T>, all: set<T>) {
    multiset(list) == multiset(all)
  }

  lemma {:induction false} ListsSize<T>(list: seq<T>, all: set<T>)
    requires Lists(list, all)
    ensures |list| == |all| && forall x :: x in list <==> x in all
  {
    assert |list| == |multiset(list)| && |all| == |multiset(all)|;
    forall x ensures x in list <==> x in all {
      assert x in list <==> x in multiset(list);
    }
  }

  // A key is a name, or a namespace and a name with a slash in between.
  function SplitKey(key: string): Result<(string, string), Malformed> {
    var i := Slash(key);
    if i == |key| then Ok(("", key))
    else if Slash(key[i + 1..]) == |key| - i - 1 then Ok((key[..i], key[i + 1..]))
    else Err(Malformed(key))
  }

  function Slash(s: string): (i: nat)
    ensures i <= |s| && (i < |s| ==> s[i] == '/')
    ensures forall j :: 0 <= j < i ==> s[j] != '/'
  {
    if s == "" || s[0] == '/' then 0 else 1 + Slash(s[1..])
  }

  lemma SplitKeyExactly(key: string, namespace: string, name: string)
    ensures SplitKey(key) == Ok((namespace, name)) <==>
      && '/' !in namespace && '/' !in name
      && key == (if '/' in key then namespace + "/" + name else name)
      && ('/' !in key ==> namespace == "")
  {
    if '/' in key {
      KeyWithSlash(key, namespace, name);
    } else {
      SlashExactly(key);
    }
  }

  lemma KeyWithSlash(key: string, namespace: string, name: string)
    requires '/' in key
    ensures SplitKey(key) == Ok((namespace, name)) <==>
      '/' !in namespace && '/' !in name && key == namespace + "/" + name
  {
    var i := Slash(key);
    var front, rest := key[..i], key[i + 1..];
    assert key == front + "/" + rest && '/' !in front;
    if '/' !in namespace && key == namespace + "/" + name {
      assert key[|namespace|] == '/';
      assert forall j :: 0 <= j < |namespace| ==> key[j] == namespace[j];
      assert i == |namespace| && rest == name && front == namespace;
    }
    SlashExactly(rest);
  }

  lemma SlashExactly(s: string)
    ensures Slash(s) == |s| <==> '/' !in s
  {
    assert Slash(s) < |s| ==> s[Slash(s)] in s;
  }

  predicate IsVarnishIngress(class_: string, ing: Ing) {
    INGRESS_CLASS in ing.annotations && ing.annotations[INGRESS_CLASS] == class_
  }

  predicate WellFormed(ing: Ing) {
    VARNISH_SVC in ing.annotations ==> SplitKey(ing.annotations[VARNISH_SVC]).Ok?
  }

  // The Service that an Ingress names, from where there may be no namespace.
  function Named(ing: Ing, otherwise: string): (string, string)
    requires VARNISH_SVC in ing.annotations && WellFormed(ing)
  {
    var (namespace, name) := SplitKey(ing.annotations[VARNISH_SVC]).value;
    (if namespace == "" then otherwise else namespace, name)
  }

  // The Varnish Service of an Ingress: the one it names, or the only one in
  // the cluster, or the only one in its namespace.
  ghost predicate Implements(all: set<Svc>, namespace: string, svc: Svc, ing: Ing)
    requires WellFormed(ing)
  {
    svc in all &&
    if VARNISH_SVC in ing.annotations then Named(ing, namespace) == (svc.namespace, svc.name)
    else all == {svc} || (|all| != 1 && InNamespace(all, namespace) == {svc})
  }

  method GetVarnishSvcForIng(workerNs: string, svcs: seq<Svc>, nsSvcs: seq<Svc>, ing: Ing, ghost all: set<Svc>)
    returns (r: Result<Option<Svc>, Malformed>)
    requires Cluster(all) && Lists(svcs, all) && Lists(nsSvcs, InNamespace(all, workerNs))
    ensures r.Err? <==> !WellFormed(ing)
    ensures r.Ok? ==> forall svc :: r.value == Some(svc) <==> Implements(all, workerNs, svc, ing)
  {
    ListsSize(svcs, all);
    ListsSize(nsSvcs, InNamespace(all, workerNs));
    if VARNISH_SVC in ing.annotations {
      var key := SplitKey(ing.annotations[VARNISH_SVC]);
      if key.Err? {
        return Err(key.error);
      }
      var (targetNs, targetSvc) := key.value;
      if targetNs == "" {
        targetNs := workerNs;
      }
      for i := 0 to |svcs|
        invariant forall k :: 0 <= k < i ==> (svcs[k].namespace, svcs[k].name) != (targetNs, targetSvc)
      {
        if svcs[i].namespace == targetNs && svcs[i].name == targetSvc {
          return Ok(Some(svcs[i]));
        }
      }
      return Ok(None);
    }
    if |svcs| == 1 {
      Single(all, svcs[0]);
      assert forall s :: all == {s} ==> svcs[0] in {s};
      return Ok(Some(svcs[0]));
    }
    if |nsSvcs| == 1 {
      Single(InNamespace(all, workerNs), nsSvcs[0]);
      assert forall s :: InNamespace(all, workerNs) == {s} ==> nsSvcs[0] in {s};
      return Ok(Some(nsSvcs[0]));
    }
    return Ok(None);
  }

  lemma Single<T>(s: set<T>, x: T)
    requires |s| == 1 && x in s
    ensures s == {x}
  {
    assert |s - {x}| == 0;
  }

  // The answer from the other side: whether an Ingress is one of those that a
  // Service implements, for a worker that sees so many Services.
  predicate Selects(total: nat, inWorkerNs: nat, svc: Svc, ing: Ing)
    requires WellFormed(ing)
  {
    if VARNISH_SVC in ing.annotations then
      Named(ing, if ing.namespace == "" then "default" else ing.namespace) == (svc.namespace, svc.name)
    else total == 1 || (ing.namespace == svc.namespace && inWorkerNs == 1)
  }

  // In the order of the list.
  function Selected(ings: seq<Ing>, class_: string, total: nat, inWorkerNs: nat, svc: Svc): (r: seq<Ing>)
    requires forall i :: 0 <= i < |ings| && IsVarnishIngress(class_, ings[i]) ==> WellFormed(ings[i])
  {
    if ings == [] then []
    else
      var last := ings[|ings| - 1];
      Selected(ings[..|ings| - 1], class_, total, inWorkerNs, svc)
        + if IsVarnishIngress(class_, last) && Selects(total, inWorkerNs, svc, last) then [last] else []
  }

  // Whether an Ingress is to be in the answer, by its annotations. Namespaces
  // and names of Services have no slash in them.
  predicate Wanted(class_: string, total: nat, inWorkerNs: nat, svc: Svc, ing: Ing) {
    var ns := if ing.namespace == "" then "default" else ing.namespace;
    && "kubernetes.io/ingress.class" in ing.annotations && ing.annotations["kubernetes.io/ingress.class"] == class_
    && if "ingress.varnish-cache.org/varnish-svc" in ing.annotations then
         var key := ing.annotations["ingress.varnish-cache.org/varnish-svc"];
         key == svc.namespace + "/" + svc.name || (ns == svc.namespace && key in {svc.name, "/" + svc.name})
       else total == 1 || (ing.namespace == svc.namespace && inWorkerNs == 1)
  }

  ghost predicate IsName(svc: Svc) {
    svc.namespace != "" && '/' !in svc.namespace && '/' !in svc.name
  }

  lemma WantedExactly(class_: string, total: nat, inWorkerNs: nat, svc: Svc, ing: Ing)
    requires IsName(svc) && (IsVarnishIngress(class_, ing) ==> WellFormed(ing))
    ensures Wanted(class_, total, inWorkerNs, svc, ing) <==>
      IsVarnishIngress(class_, ing) && Selects(total, inWorkerNs, svc, ing)
  {
    if IsVarnishIngress(class_, ing) && VARNISH_SVC in ing.annotations {
      NamedExactly(ing, if ing.namespace == "" then "default" else ing.namespace, svc);
    }
  }

  lemma NamedExactly(ing: Ing, otherwise: string, svc: Svc)
    requires IsName(svc) && VARNISH_SVC in ing.annotations && WellFormed(ing)
    ensures var key := ing.annotations[VARNISH_SVC];
      Named(ing, otherwise) == (svc.namespace, svc.name) <==>
        key == svc.namespace + "/" + svc.name || (otherwise == svc.namespace && key in {svc.name, "/" + svc.name})
  {
    var key := ing.annotations[VARNISH_SVC];
    var (namespace, name) := SplitKey(key).value;
    SplitKeyExactly(key, namespace, name);
    SplitKeyExactly(key, svc.namespace, svc.name);
    SplitKeyExactly(key, "", svc.name);
    var full, short := svc.namespace + "/" + svc.name, "/" + svc.name;
    assert full[|svc.namespace|] == '/' && short[0] == '/';
    assert "" + "/" + svc.name == short;
  }

  lemma {:induction false} SelectedExactly(ings: seq<Ing>, class_: string, total: nat, inWorkerNs: nat, svc: Svc,
      ing: Ing)
    requires forall i :: 0 <= i < |ings| && IsVarnishIngress(class_, ings[i]) ==> WellFormed(ings[i])
    ensures ing in Selected(ings, class_, total, inWorkerNs, svc) <==>
      ing in ings && IsVarnishIngress(class_, ing) && Selects(total, inWorkerNs, svc, ing)
    ensures IsName(svc) ==> (ing in Selected(ings, class_, total, inWorkerNs, svc) <==>
      ing in ings && Wanted(class_, total, inWorkerNs, svc, ing))
  {
    if IsName(svc) && ing in ings {
      WantedExactly(class_, total, inWorkerNs, svc, ing);
    }
    if ings != [] {
      SelectedExactly(ings[..|ings| - 1], class_, total, inWorkerNs, svc, ing);
      assert ings == ings[..|ings| - 1] + [ings[|ings| - 1]];
    }
  }

  // In the other direction, the Service is the one that is named, or the only
  // one there is, or the only one in the namespace.
  lemma ImplementsExactly(all: set<Svc>, namespace: string, svc: Svc, ing: Ing)
    requires IsName(svc) && WellFormed(ing)
    ensures Implements(all, namespace, svc, ing) <==>
      svc in all &&
      if "ingress.varnish-cache.org/varnish-svc" in ing.annotations then
        var key := ing.annotations["ingress.varnish-cache.org/varnish-svc"];
        key == svc.namespace + "/" + svc.name || (namespace == svc.namespace && key in {svc.name, "/" + svc.name})
      else
        || (forall s :: s in all ==> s == svc)
        || (svc.namespace == namespace && forall s :: s in all && s.namespace == namespace ==> s == svc)
  {
    if VARNISH_SVC in ing.annotations {
      NamedExactly(ing, namespace, svc);
    } else if svc in all {
      assert (forall s :: s in all ==> s == svc) <==> all == {svc};
      var ns := InNamespace(all, namespace);
      assert forall s :: s in ns <==> s in all && s.namespace == namespace;
      assert ns == {svc} ==> svc in ns;
      assert svc.namespace == namespace ==> svc in ns;
      assert (forall s :: s in ns ==> s == svc) && svc in ns ==> ns == {svc};
      if |all| == 1 {
        Single(all, svc);
      }
    }
  }

  // The answer is what is wanted, at increasing places in the list.
  ghost predicate Picked(
    ings: seq<Ing>, class_: string, total: nat, inWorkerNs: nat, svc: Svc, at: seq<nat>, r: seq<Ing>)
  {
    && |at| == |r| && (forall k :: 0 <= k < |r| ==> at[k] < |ings| && r[k] == ings[at[k]])
    && (forall k, l :: 0 <= k < l < |at| ==> at[k] < at[l])
    && (forall i :: 0 <= i < |ings| ==> (i in at <==> Wanted(class_, total, inWorkerNs, svc, ings[i])))
  }

  lemma {:induction false} SelectedIsPicked(ings: seq<Ing>, class_: string, total: nat, inWorkerNs: nat, svc: Svc)
    returns (at: seq<nat>)
    requires IsName(svc)
    requires forall i :: 0 <= i < |ings| && IsVarnishIngress(class_, ings[i]) ==> WellFormed(ings[i])
    ensures Picked(ings, class_, total, inWorkerNs, svc, at, Selected(ings, class_, total, inWorkerNs, svc))
  {
    at := [];
    if ings != [] {
      var front, n := ings[..|ings| - 1], |ings| - 1;
      var before := SelectedIsPicked(front, class_, total, inWorkerNs, svc);
      WantedExactly(class_, total, inWorkerNs, svc, ings[n]);
      forall k | 0 <= k < |before| ensures before[k] < n {
      }
      at := before + if Wanted(class_, total, inWorkerNs, svc, ings[n]) then [n] else [];
    }
  }

  // One malformed annotation on any Ingress of the class is an error for all.
  method GetIngsForVarnishSvc(class_: string, ings: seq<Ing>, svcs: seq<Svc>, nsSvcs: seq<Svc>, svc: Svc)
    returns (r: Result<seq<Ing>, Malformed>)
    ensures r.Ok? <==> forall i :: 0 <= i < |ings| && IsVarnishIngress(class_, ings[i]) ==> WellFormed(ings[i])
    ensures r.Ok? ==> r.value == Selected(ings, class_, |svcs|, |nsSvcs|, svc)
    ensures r.Ok? && IsName(svc) ==>
      exists at :: Picked(ings, class_, |svcs|, |nsSvcs|, svc, at, r.value)
  {
    var ings4Svc: seq<Ing> := [];
    for i := 0 to |ings|
      invariant forall k :: 0 <= k < i && IsVarnishIngress(class_, ings[k]) ==> WellFormed(ings[k])
      invariant ings4Svc == Selected(ings[..i], class_, |svcs|, |nsSvcs|, svc)
    {
      assert ings[..i + 1][..i] == ings[..i];
      var ing := ings[i];
      if !IsVarnishIngress(class_, ing) {
        continue;
      }
      var namespace := ing.namespace;
      if namespace == "" {
        namespace := "default";
      }
      if VARNISH_SVC in ing.annotations {
        var key := SplitKey(ing.annotations[VARNISH_SVC]);
        if key.Err? {
          return Err(key.error);
        }
        var (targetNs, targetSvc) := key.value;
        if targetNs == "" {
          targetNs := namespace;
        }
        if targetNs == svc.namespace && targetSvc == svc.name {
          ings4Svc := ings4Svc + [ing];
        }
      } else if |svcs| == 1 {
        ings4Svc := ings4Svc + [ing];
      } else if ing.namespace == svc.namespace && |nsSvcs| == 1 {
        ings4Svc := ings4Svc + [ing];
      }
    }
    assert ings[..|ings|] == ings;
    if IsName(svc) {
      ghost var at := SelectedIsPicked(ings, class_, |svcs|, |nsSvcs|, svc);
    }
    return Ok(ings4Svc);
  }

  // What the worker of a namespace answers.
  ghost predicate SelectedBy(all: set<Svc>, workerNs: string, svc: Svc, ing: Ing)
    requires WellFormed(ing)
  {
    Selects(|all|, |InNamespace(all, workerNs)|, svc, ing)
  }

  // The two answers agree, when they come from the worker of the Ingress's
  // namespace and from the worker of the Service's namespace.
  lemma InversePair(all: set<Svc>, svc: Svc, ing: Ing)
    requires Cluster(all) && svc in all && WellFormed(ing) && ing.namespace != ""
    ensures Implements(all, ing.namespace, svc, ing) <==> SelectedBy(all, svc.namespace, svc, ing)
  {
    var ns := InNamespace(all, svc.namespace);
    if |all| == 1 {
      Single(all, svc);
    }
    if |ns| == 1 {
      Single(ns, svc);
    }
    assert svc in ns;
    assert InNamespace(all, ing.namespace) == {svc} ==> svc in InNamespace(all, ing.namespace);
  }

  // So the Ingresses of different Services are disjoint, and those of all of
  // the Services together are the ones for which there is a Service.
  lemma Partition(all: set<Svc>, svc: Svc, other: Svc, ing: Ing)
    requires Cluster(all) && svc in all && other in all && WellFormed(ing) && ing.namespace != ""
    ensures SelectedBy(all, svc.namespace, svc, ing) && SelectedBy(all, other.namespace, other, ing) ==> svc == other
    ensures (exists s :: Implements(all, ing.namespace, s, ing)) <==>
      exists s :: s in all && SelectedBy(all, s.namespace, s, ing)
  {
    InversePair(all, svc, ing);
    InversePair(all, other, ing);
    assert all == {svc} ==> other in {svc};
    var ns := InNamespace(all, ing.namespace);
    assert ns == {svc} && ns == {other} ==> other in {svc};
    forall s | s in all ensures Implements(all, ing.namespace, s, ing) <==> SelectedBy(all, s.namespace, s, ing) {
      InversePair(all, s, ing);
    }
  }

  // The worker of another namespace counts the Services there instead. Its
  // answer differs for exactly those Ingresses that name no Service and are
  // in the Service's namespace, when just one of the two namespaces has just
  // one Service and the cluster has more.
  lemma OtherWorker(all: set<Svc>, workerNs: string, svc: Svc, ing: Ing)
    requires Cluster(all) && svc in all && WellFormed(ing)
    ensures SelectedBy(all, workerNs, svc, ing) != SelectedBy(all, svc.namespace, svc, ing) <==>
      && VARNISH_SVC !in ing.annotations && ing.namespace == svc.namespace && |all| > 1
      && (|InNamespace(all, workerNs)| == 1) != (|InNamespace(all, svc.namespace)| == 1)
  {
    assert |all| > 0;
  }

  // An update for an Ingress is made by the worker of the Ingress's
  // namespace. If that is not the Service's, the Service can lose Ingresses
  // that have it as the only one in their namespace, or gain some that are to
  // have no Service at all.
  lemma LostIngress(svc: Svc, others: set<Svc>, ing: Ing, named: Ing)
    requires forall s :: s in others ==> s.namespace == named.namespace
    requires Cluster(others) && |others| != 1 && others != {} && named.namespace != svc.namespace
    requires VARNISH_SVC !in ing.annotations && ing.namespace == svc.namespace && svc.namespace != ""
    requires VARNISH_SVC in named.annotations && WellFormed(named) &&
      Named(named, named.namespace) == (svc.namespace, svc.name)
    ensures var all := others + {svc};
      && Implements(all, named.namespace, svc, named) && Implements(all, ing.namespace, svc, ing)
      && !SelectedBy(all, named.namespace, svc, ing)
  {
    var all := others + {svc};
    assert InNamespace(all, svc.namespace) == {svc};
    assert InNamespace(all, named.namespace) == others;
    assert |all| == |others| + 1;
  }

  lemma GainedIngress(svc: Svc, twin: Svc, other: Svc, ing: Ing, named: Ing)
    requires svc.namespace == twin.namespace && svc.name != twin.name &&
      other.namespace == named.namespace != svc.namespace
    requires VARNISH_SVC !in ing.annotations && ing.namespace == svc.namespace
    requires VARNISH_SVC in named.annotations && WellFormed(named) &&
      Named(named, named.namespace) == (svc.namespace, svc.name)
    ensures var all := {svc, twin, other};
      && Implements(all, named.namespace, svc, named) && (forall s :: !Implements(all, ing.namespace, s, ing))
      && SelectedBy(all, named.namespace, svc, ing)
  {
    var all := {svc, twin, other};
    assert InNamespace(all, svc.namespace) == {svc, twin};
    assert InNamespace(all, named.namespace) == {other};
    assert svc in all && twin in all && other in all;
    forall s ensures !Implements(all, ing.namespace, s, ing) {
      assert {svc, twin} == {s} ==> svc == s && twin == s;
      assert all == {s} ==> svc == s && twin == s;
    }
  }
}
