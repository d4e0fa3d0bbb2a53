/** The weighted balancer as the program keeps it: objects updated in place, one call at a time. */
module WeightedBalancer {
  import opened Backends
  import opened Sums
  import opened SmoothWeighted

  class WBackend {
    const backend: Backend
    var current: int
    ghost const slot: nat

    constructor (backend: Backend, ghost slot: nat)
      ensures this.backend == backend && this.slot == slot && current == 0
    {
      this.backend, this.slot, current := backend, slot, 0;
    }
  }

  class Weighted {
    var backends: seq<WBackend>

    /** Every position has its own counter, even where two positions share a Backend. */
    ghost predicate Valid()
      reads this
    {
      forall i :: 0 <= i < |backends| ==> backends[i].slot == i
    }

    ghost function Counters(): (c: seq<int>)
      reads this, backends
      ensures |c| == |backends| && forall i :: 0 <= i < |c| ==> c[i] == backends[i].current
    {
      seq(|backends|, i requires 0 <= i < |backends| reads this, backends => backends[i].current)
    }

    ghost function Upstreams(): (us: seq<Backend>)
      reads this
      ensures |us| == |backends| && forall i :: 0 <= i < |us| ==> us[i] == backends[i].backend
    {
      seq(|backends|, i requires 0 <= i < |backends| reads this => backends[i].backend)
    }

    ghost function Weights(): (w: seq<int>)
      reads this, Upstreams()
      ensures |w| == |backends| && forall i :: 0 <= i < |w| ==> w[i] == backends[i].backend.weight
    {
      seq(|backends|, i requires 0 <= i < |backends| reads this, Upstreams() => Upstreams()[i].weight)
    }

    ghost function Flags(): (a: seq<bool>)
      reads this, Upstreams()
      ensures |a| == |backends| && forall i :: 0 <= i < |a| ==> a[i] == backends[i].backend.alive
    {
      seq(|backends|, i requires 0 <= i < |backends| reads this, Upstreams() => Upstreams()[i].alive)
    }

    ghost function Abs(): Balancer
      reads this, backends, Upstreams()
    {
      Balancer(Weights(), Counters())
    }

    constructor (bs: seq<Backend>)
      ensures Valid() && fresh(backends)
      ensures Upstreams() == bs && Counters() == Zeros(|bs|)
    {
      backends := [];
      new;
      var wb := Wrap(bs);
      backends := wb;
    }

    static method Wrap(bs: seq<Backend>) returns (wb: seq<WBackend>)
      ensures |wb| == |bs| && fresh(wb)
      ensures forall i :: 0 <= i < |wb| ==> wb[i].backend == bs[i] && wb[i].current == 0 && wb[i].slot == i
    {
      wb := [];
      for i := 0 to |bs|
        invariant |wb| == i && fresh(wb)
        invariant forall k :: 0 <= k < i ==> wb[k].backend == bs[k] && wb[k].current == 0 && wb[k].slot == k
      {
        var b := new WBackend(bs[i], i);
        wb := wb + [b];
      }
    }

    /** One turn of the scan: an alive counter gains its weight and may become the best so far. */
    static method Consider(b: WBackend, best: WBackend?, total: int) returns (best': WBackend?, total': int)
      modifies b`current
      ensures !b.backend.alive ==> b.current == old(b.current) && best' == best && total' == total
      ensures b.backend.alive ==>
                && b.current == old(b.current) + b.backend.weight
                && total' == total + b.backend.weight
                && best' == if best == null || b.current > best.current then b else best
    {
      best', total' := best, total;
      if b.backend.alive {
        b.current := b.current + b.backend.weight;
        total' := total + b.backend.weight;
        if best == null || b.current > best.current {
          best' := b;
        }
      }
    }

    /** The scan of one call: raise every alive counter by its weight and remember the first largest. */
    method Raise() returns (best: WBackend?, total: int)
      requires Valid()
      modifies backends`current
      ensures Counters() == Plus(old(Counters()), Effective(Weights(), Flags()))
      ensures total == Sum(Effective(Weights(), Flags()))
      ensures Weights() == old(Weights()) && Flags() == old(Flags())
      ensures match FirstMax(Counters(), Flags(), |backends|)
              case NoneAlive => best == null
              case Chosen(b) => best == backends[b]
    {
      hide FirstMax, Sum, Plus, Effective, Counters, Weights, Flags, Upstreams;
      ghost var before, weights, alive := Counters(), Weights(), Flags();
      ghost var gain := Effective(weights, alive);
      ghost var raised := Plus(before, gain);
      FirstMaxStart(raised, alive);
      SumZeros(gain[..0]);
      total, best := 0, null;
      for i := 0 to |backends|
        invariant total == Sum(gain[..i])
        invariant forall k :: 0 <= k < |backends| ==> backends[k].current == if k < i then raised[k] else before[k]
        invariant match FirstMax(raised, alive, i)
                  case NoneAlive => best == null
                  case Chosen(b) => best == backends[b]
      {
        SumTakeNext(gain, i);
        FirstMaxNext(raised, alive, i);
        best, total := Consider(backends[i], best, total);
      }
      assert gain[..|backends|] == gain;
      assert Counters() == raised && Weights() == weights && Flags() == alive;
    }

    /** Alive, and on these counters plus weights the first of the largest among the alive ones. */
    ghost predicate IsFirstLargest(counters: seq<int>, b: nat)
      requires |counters| == |backends| && b < |backends|
      reads this, Upstreams()
    {
      && backends[b].backend.alive
      && (forall i :: 0 <= i < |backends| && backends[i].backend.alive ==>
            counters[i] + backends[i].backend.weight <= counters[b] + backends[b].backend.weight)
      && forall i :: 0 <= i < b && backends[i].backend.alive ==>
           counters[i] + backends[i].backend.weight < counters[b] + backends[b].backend.weight
    }

    /** What a call picks on these counters, told about the objects. */
    lemma {:induction false} PickHere(counters: seq<int>)
      requires |counters| == |backends|
      ensures var c := Pick(counters, Weights(), Flags());
              && (c.NoneAlive? <==> forall i :: 0 <= i < |backends| ==> !backends[i].backend.alive)
              && (c.Chosen? ==> c.index < |backends| && IsFirstLargest(counters, c.index))
    {
      hide Pick, Weights, Flags;
      PickIsFirstLargest(counters, Weights(), Flags());
    }

    method Next() returns (r: Backend?)
      requires Valid()
      modifies backends`current
      ensures Valid()
      ensures Counters() == After(old(Counters()), Weights(), Flags())
      ensures Abs() == Step(old(Abs()), Call(Flags()))
      ensures var c := Pick(old(Counters()), Weights(), Flags());
              r == if c.NoneAlive? then null else backends[c.index].backend
      ensures r == null <==> forall i :: 0 <= i < |backends| ==> !backends[i].backend.alive
      ensures r != null ==>
                exists b :: 0 <= b < |backends| && IsFirstLargest(old(Counters()), b) && r == backends[b].backend
    {
      hide Plus, Effective, Sum, FirstMax, Counters, Weights, Flags, Upstreams, After, IsFirstLargest;
      ghost var before, weights, alive := Counters(), Weights(), Flags();
      var best, total := Raise();
      PickHere(before);
      if best == null {
        AfterNone(before, weights, alive);
        return null;
      }
      AfterChosen(before, weights, alive, Pick(before, weights, alive).index);
      best.current := best.current - total;
      assert Counters() == After(before, weights, alive) && Weights() == weights && Flags() == alive;
      PickHere(before);
      return best.backend;
    }

    method List() returns (out: seq<Backend>)
      ensures out == Upstreams()
    {
      out := [];
      for i := 0 to |backends|
        invariant out == Upstreams()[..i]
      {
        out := out + [backends[i].backend];
      }
    }

    method Update(cfgs: seq<BackendConfig>)
      requires Valid()
      modifies this, Upstreams()`weight
      ensures Valid() && fresh(backends)
      ensures |backends| == |cfgs| && Counters() == Zeros(|cfgs|)
      ensures forall i :: 0 <= i < |cfgs| ==> Upstreams()[i].url == cfgs[i].url
      ensures forall i :: 0 <= i < |cfgs| ==>
                var k := LastOf(Urls(old(Upstreams())), cfgs[i].url);
                if k >= 0 then Upstreams()[i] == old(Upstreams())[k]
                else fresh(Upstreams()[i]) && Upstreams()[i].alive && Upstreams()[i].inflight == 0
      ensures (forall i, j :: 0 <= i < j < |cfgs| ==> cfgs[i].url != cfgs[j].url) ==>
                && (forall i :: 0 <= i < |cfgs| ==> Weights()[i] == cfgs[i].weight)
                && Abs() == Step(old(Abs()), Reconfigure(seq(|cfgs|, i requires 0 <= i < |cfgs| => cfgs[i].weight)))
    {
      var us := List();
      var merged := MergeBackends(us, cfgs);
      var wb := Wrap(merged);
      backends := wb;
      assert Upstreams() == merged;
      assert Counters() == Zeros(|cfgs|);
    }
  }
}
