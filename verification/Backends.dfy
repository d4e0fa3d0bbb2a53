/** Upstream servers, and the rebuilding of a backend list when a new configuration arrives. */
module Backends {

  datatype BackendConfig = BackendConfig(url: string, weight: int)

  class Backend {
    const url: string
    var weight: int
    var alive: bool
    var inflight: int

    constructor (url: string, weight: int)
      ensures this.url == url && this.weight == weight && alive && inflight == 0
    {
      this.url, this.weight := url, weight;
      alive, inflight := true, 0;
    }

    method SetAlive(v: bool)
      modifies this`alive
      ensures alive == v
    {
      alive := v;
    }

    method Inc()
      modifies this`inflight
      ensures inflight == old(inflight) + 1
    {
      inflight := inflight + 1;
    }

    method Dec()
      modifies this`inflight
      ensures inflight == old(inflight) - 1
    {
      inflight := inflight - 1;
    }
  }

  ghost function Urls(bs: seq<Backend>): (us: seq<string>)
    ensures |us| == |bs| && forall i :: 0 <= i < |bs| ==> us[i] == bs[i].url
  {
    seq(|bs|, i requires 0 <= i < |bs| => bs[i].url)
  }

  /** The last position that holds u, or -1: a map filled in order keeps the last of equal keys. */
  ghost function LastOf(us: seq<string>, u: string): (i: int)
    ensures -1 <= i < |us|
    ensures i >= 0 ==> us[i] == u
    ensures forall j :: i < j < |us| ==> us[j] != u
  {
    if us == [] then -1
    else if us[|us| - 1] == u then |us| - 1
    else LastOf(us[..|us| - 1], u)
  }

  /** The positions that are alive, each once, in the configured order. */
  ghost function AliveAt(bs: seq<Backend>): (ps: seq<nat>)
    reads bs
    ensures forall k :: 0 <= k < |ps| ==> ps[k] < |bs| && bs[ps[k]].alive
    ensures forall j, k :: 0 <= j < k < |ps| ==> ps[j] < ps[k]
  {
    if bs == [] then []
    else
      var n := |bs| - 1;
      if bs[n].alive then AliveAt(bs[..n]) + [n] else AliveAt(bs[..n])
  }

  /** And none of them is missing. */
  lemma {:induction false} NoneMissing(bs: seq<Backend>, i: nat) returns (k: nat)
    requires i < |bs| && bs[i].alive
    ensures k < |AliveAt(bs)| && AliveAt(bs)[k] == i
    decreases |bs|
  {
    if i == |bs| - 1 {
      k := |AliveAt(bs)| - 1;
    } else {
      k := NoneMissing(bs[..|bs| - 1], i);
    }
  }

  /** The backends that are alive, in the configured order. */
  ghost function Alive(bs: seq<Backend>): (out: seq<Backend>)
    reads bs
    ensures |out| == |AliveAt(bs)| && forall k :: 0 <= k < |out| ==> out[k] == bs[AliveAt(bs)[k]]
  {
    seq(|AliveAt(bs)|, k requires 0 <= k < |AliveAt(bs)| reads bs => bs[AliveAt(bs)[k]])
  }

  method Healthy(bs: seq<Backend>) returns (out: seq<Backend>)
    ensures out == Alive(bs)
  {
    hide AliveAt, Alive;
    out := [];
    NoneAliveYet();
    assert bs[..0] == [];
    for i := 0 to |bs|
      invariant out == Alive(bs[..i])
    {
      AliveNext(bs, i);
      if bs[i].alive {
        out := out + [bs[i]];
      }
    }
    assert bs[..|bs|] == bs;
  }

  lemma {:induction false} NoneAliveYet()
    ensures Alive([]) == []
  {
  }

  lemma {:induction false} AliveNext(bs: seq<Backend>, i: nat)
    requires i < |bs|
    ensures Alive(bs[..i + 1]) == if bs[i].alive then Alive(bs[..i]) + [bs[i]] else Alive(bs[..i])
  {
    assert bs[..i + 1][..i] == bs[..i];
  }

  /** The healthy list holds exactly the alive backends. */
  lemma {:induction false} HealthyIsAlive(bs: seq<Backend>, b: Backend)
    ensures b in Alive(bs) <==> b in bs && b.alive
  {
    if b in bs && b.alive {
      var i :| 0 <= i < |bs| && bs[i] == b;
      var k := NoneMissing(bs, i);
      assert Alive(bs)[k] == b;
    }
  }

  /** A table of the existing backends; of several with one URL the last stays. */
  method IndexByUrl(existing: seq<Backend>) returns (byUrl: map<string, Backend>)
    ensures forall u :: u in byUrl <==> LastOf(Urls(existing), u) >= 0
    ensures forall u :: u in byUrl ==> byUrl[u] == existing[LastOf(Urls(existing), u)]
  {
    byUrl := map[];
    for i := 0 to |existing|
      invariant forall u :: u in byUrl <==> LastOf(Urls(existing[..i]), u) >= 0
      invariant forall u :: u in byUrl ==> byUrl[u] == existing[LastOf(Urls(existing[..i]), u)]
    {
      assert Urls(existing[..i + 1])[..i] == Urls(existing[..i]);
      byUrl := byUrl[existing[i].url := existing[i]];
    }
    assert existing[..|existing|] == existing;
  }

  /** One configuration entry: the known object with its new weight, or a new alive one. */
  method MergeOne(byUrl: map<string, Backend>, c: BackendConfig) returns (b: Backend)
    requires forall u :: u in byUrl ==> byUrl[u].url == u
    modifies (if c.url in byUrl then {byUrl[c.url]} else {})`weight
    ensures b.url == c.url && b.weight == c.weight
    ensures if c.url in byUrl then b == byUrl[c.url] else fresh(b) && b.alive && b.inflight == 0
  {
    if c.url in byUrl {
      b := byUrl[c.url];
      b.weight := c.weight;
    } else {
      b := new Backend(c.url, c.weight);
    }
  }

  /**
   * Rebuild the list in the order of the new configuration. A URL that was already there keeps its
   * object, and with it its alive flag and in-flight count; a new URL gets a new, alive object.
   */
  method MergeBackends(existing: seq<Backend>, cfgs: seq<BackendConfig>) returns (result: seq<Backend>)
    modifies existing`weight
    ensures |result| == |cfgs|
    ensures forall i :: 0 <= i < |cfgs| ==> result[i].url == cfgs[i].url
    ensures forall i :: 0 <= i < |cfgs| ==>
              var k := LastOf(Urls(existing), cfgs[i].url);
              if k >= 0 then result[i] == existing[k]
              else fresh(result[i]) && result[i].alive && result[i].inflight == 0
    ensures forall i :: 0 <= i < |cfgs| && (forall j :: i < j < |cfgs| ==> cfgs[j].url != cfgs[i].url) ==>
              result[i].weight == cfgs[i].weight
    ensures forall b :: b in existing && (forall j :: 0 <= j < |cfgs| ==> cfgs[j].url != b.url) ==>
              b.weight == old(b.weight)
  {
    hide LastOf, Urls;
    var byUrl := IndexByUrl(existing);
    result := [];
    for i := 0 to |cfgs|
      invariant |result| == i
      invariant forall k :: 0 <= k < i ==> result[k].url == cfgs[k].url
      invariant forall k :: 0 <= k < i ==>
                  if cfgs[k].url in byUrl then result[k] == byUrl[cfgs[k].url]
                  else fresh(result[k]) && result[k].alive && result[k].inflight == 0
      invariant forall k :: 0 <= k < i && (forall j :: k < j < i ==> cfgs[j].url != cfgs[k].url) ==>
                  result[k].weight == cfgs[k].weight
      invariant forall b :: b in existing && (forall j :: 0 <= j < i ==> cfgs[j].url != b.url) ==>
                  b.weight == old(b.weight)
    {
      var b := MergeOne(byUrl, cfgs[i]);
      result := result + [b];
    }
  }
}
