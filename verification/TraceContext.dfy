/**
 * Trace identifiers on the way through gateways: read from the headers of a request, or made up,
 * and written back for the next hop. An absent header is the empty string, as the program reads it.
 */
module TraceContext {

  const DASH := '-'

  /** The parts between dashes; a text without dashes is one part. */
  function Split(s: string): (parts: seq<string>)
    ensures |parts| >= 1
  {
    if s == "" then [""]
    else
      var rest := Split(s[1..]);
      if s[0] == DASH then [""] + rest else [[s[0]] + rest[0]] + rest[1..]
  }

  ghost predicate DashFree(s: string)
  {
    DASH !in s
  }

  function Join(parts: seq<string>): string
  {
    if parts == [] then ""
    else if |parts| == 1 then parts[0]
    else parts[0] + [DASH] + Join(parts[1..])
  }

  /** Splitting loses nothing and leaves no dash in any part. */
  lemma {:induction false} SplitJoins(s: string)
    ensures Join(Split(s)) == s
    ensures forall i :: 0 <= i < |Split(s)| ==> DashFree(Split(s)[i])
    decreases |s|
  {
    hide Split, Join;
    if s == "" {
      SplitEmpty();
      JoinOne("");
    } else {
      SplitJoins(s[1..]);
      assert s == [s[0]] + s[1..];
      SplitCons(s[0], s[1..]);
      JoinCons(s[0], Split(s[1..]));
    }
  }

  lemma {:induction false} JoinOne(s: string)
    ensures Join([s]) == s
  {
  }

  lemma {:induction false} JoinCons(c: char, parts: seq<string>)
    requires parts != []
    ensures Join([""] + parts) == [DASH] + Join(parts)
    ensures Join([[c] + parts[0]] + parts[1..]) == [c] + Join(parts)
  {
    assert ([""] + parts)[1..] == parts;
    assert ([[c] + parts[0]] + parts[1..])[1..] == parts[1..];
  }

  lemma {:induction false} SplitCons(c: char, s: string)
    ensures Split([c] + s) == if c == DASH then [""] + Split(s) else [[c] + Split(s)[0]] + Split(s)[1..]
  {
    assert ([c] + s)[1..] == s;
  }

  /** Splitting at a dash splits the two sides apart. */
  lemma {:induction false} SplitAtDash(a: string, b: string)
    ensures Split(a + [DASH] + b) == Split(a) + Split(b)
    decreases |a|
  {
    hide Split;
    if a == "" {
      assert a + [DASH] + b == [DASH] + b;
      SplitCons(DASH, b);
      SplitEmpty();
    } else {
      var c, rest := a[0], a[1..];
      assert a == [c] + rest && a + [DASH] + b == [c] + (rest + [DASH] + b);
      SplitAtDash(rest, b);
      SplitCons(c, rest);
      SplitCons(c, rest + [DASH] + b);
    }
  }

  lemma {:induction false} SplitEmpty()
    ensures Split("") == [""]
  {
  }

  lemma {:induction false} SplitWhole(s: string)
    ensures |Split(s)| == 1 <==> DashFree(s)
    ensures DashFree(s) ==> Split(s) == [s]
    decreases |s|
  {
    if s != "" {
      SplitWhole(s[1..]);
      assert s == [s[0]] + s[1..];
    }
  }

  datatype Headers = Headers(traceparent: string, traceId: string, spanId: string)

  datatype Ids = Ids(trace: string, span: string, parent: string)

  /** `freshTrace` and `freshSpan` are what the random generator would return. */
  function Extract(h: Headers, freshTrace: string, freshSpan: string): Ids
  {
    var parts := Split(h.traceparent);
    if h.traceparent != "" && |parts| == 4 then Ids(parts[1], freshSpan, parts[2])
    else if h.traceId != "" then Ids(h.traceId, freshSpan, h.spanId)
    else Ids(freshTrace, freshSpan, "")
  }

  function Format(trace: string, span: string): string
  {
    "00" + [DASH] + trace + [DASH] + span + [DASH] + "01"
  }

  function Emit(ids: Ids): Headers
  {
    Headers(Format(ids.trace, ids.span), ids.trace, ids.span)
  }

  lemma {:induction false} SplitFormat(trace: string, span: string)
    requires DashFree(span)
    ensures Split(Format(trace, span)) == ["00"] + Split(trace) + [span] + ["01"]
  {
    hide Split;
    var head := "00" + [DASH] + trace;
    SplitAtDash("00", trace);
    SplitAtDash(head, span);
    SplitAtDash(head + [DASH] + span, "01");
    SplitWhole("00");
    SplitWhole("01");
    SplitWhole(span);
  }

  /**
   * What one gateway writes, the next reads back: the same trace, and the writer's span as parent.
   * This holds for every trace identifier. One with a dash in it no longer splits into four parts,
   * and then the two plain headers carry the same values.
   */
  lemma {:induction false} NextHopContinues(ids: Ids, freshTrace: string, freshSpan: string)
    requires DashFree(ids.span)
    ensures Extract(Emit(ids), freshTrace, freshSpan) == Ids(ids.trace, freshSpan, ids.span)
  {
    hide Split;
    var parts := Split(Format(ids.trace, ids.span));
    SplitFormat(ids.trace, ids.span);
    SplitWhole(ids.trace);
    if DashFree(ids.trace) {
      assert parts == ["00", ids.trace, ids.span, "01"];
    } else {
      assert |parts| == 3 + |Split(ids.trace)|;
    }
  }

  /** The plain headers are needed exactly for trace identifiers with a dash. */
  lemma {:induction false} FourPartsIff(trace: string, span: string)
    requires DashFree(span)
    ensures |Split(Format(trace, span))| == 4 <==> DashFree(trace)
  {
    hide Split;
    SplitFormat(trace, span);
    SplitWhole(trace);
  }

  /** A well-formed header from outside: its second field becomes the trace and its third the parent. */
  lemma {:induction false} IncomingTraceIsKept(
    version: string, trace: string, parent: string, flags: string, h: Headers, freshTrace: string, freshSpan: string)
    requires DashFree(version) && DashFree(trace) && DashFree(parent) && DashFree(flags)
    requires h.traceparent == version + [DASH] + trace + [DASH] + parent + [DASH] + flags
    ensures Extract(h, freshTrace, freshSpan) == Ids(trace, freshSpan, parent)
  {
    hide Split;
    SplitFour(version, trace, parent, flags);
  }

  // ------------------------------------------------------------------ many hops

  /** A hop that samples the request uses these fresh identifiers; one that does not passes it on as it is. */
  datatype Hop = Sampled(freshTrace: string, freshSpan: string) | Skipped

  /** The headers after the hops, and the identifiers each sampling hop worked with. */
  datatype Journey = Journey(headers: Headers, seen: seq<Ids>)

  function Travel(h: Headers, hops: seq<Hop>): Journey
  {
    if hops == [] then Journey(h, [])
    else
      var j := Travel(h, hops[..|hops| - 1]);
      match hops[|hops| - 1]
      case Skipped => j
      case Sampled(t, s) =>
        var ids := Extract(j.headers, t, s);
        Journey(Emit(ids), j.seen + [ids])
  }

  /** One trace, and every hop a child of the hop before it. */
  ghost predicate Chain(seen: seq<Ids>)
  {
    forall i :: 0 < i < |seen| ==> seen[i].trace == seen[0].trace && seen[i].parent == seen[i - 1].span
  }

  /**
   * Whatever headers a request comes with and however many gateways it passes, sampled or not, all
   * sampling hops see one trace identifier and each names the previous one's span as its parent.
   */
  lemma {:induction false} OneTraceAcrossHops(h: Headers, hops: seq<Hop>)
    requires forall i :: 0 <= i < |hops| && hops[i].Sampled? ==> DashFree(hops[i].freshSpan)
    ensures Chain(Travel(h, hops).seen)
    ensures var j := Travel(h, hops);
            j.seen != [] ==> j.headers == Emit(j.seen[|j.seen| - 1]) && DashFree(j.seen[|j.seen| - 1].span)
    decreases |hops|
  {
    hide Extract, Emit, DashFree;
    if hops != [] {
      OneTraceAcrossHops(h, hops[..|hops| - 1]);
      var j := Travel(h, hops[..|hops| - 1]);
      match hops[|hops| - 1] {
        case Skipped =>
        case Sampled(t, s) =>
          ExtractedSpan(j.headers, t, s);
          if j.seen != [] {
            NextHopContinues(j.seen[|j.seen| - 1], t, s);
          }
      }
    }
  }

  lemma {:induction false} ExtractedSpan(h: Headers, freshTrace: string, freshSpan: string)
    ensures Extract(h, freshTrace, freshSpan).span == freshSpan
  {
  }

  /** What the next service gets: all three headers, with the last hop's identifiers. */
  lemma {:induction false} LastHopIsWritten(h: Headers, hops: seq<Hop>)
    requires Travel(h, hops).seen != []
    ensures var j := Travel(h, hops);
            var last := j.seen[|j.seen| - 1];
            && j.headers.traceparent == "00-" + last.trace + "-" + last.span + "-01"
            && j.headers.traceId == last.trace && j.headers.spanId == last.span
    decreases |hops|
  {
    hide Extract;
    if hops[|hops| - 1].Skipped? {
      LastHopIsWritten(h, hops[..|hops| - 1]);
    } else {
      var ids := Travel(h, hops).seen[|Travel(h, hops).seen| - 1];
      assert Format(ids.trace, ids.span) == "00-" + ids.trace + "-" + ids.span + "-01";
    }
  }

  // ----------------------------------------------------- where the trace comes from

  ghost predicate Fields(tp: string, version: string, trace: string, parent: string, flags: string)
  {
    && DashFree(version) && DashFree(trace) && DashFree(parent) && DashFree(flags)
    && tp == version + [DASH] + trace + [DASH] + parent + [DASH] + flags
  }

  ghost predicate FourFields(tp: string)
  {
    exists version, trace, parent, flags :: Fields(tp, version, trace, parent, flags)
  }

  lemma {:induction false} FourPartsAreFields(tp: string)
    ensures |Split(tp)| == 4 <==> FourFields(tp)
    ensures FourFields(tp) ==> tp != ""
  {
    hide Split;
    var parts := Split(tp);
    SplitJoins(tp);
    if |parts| == 4 {
      JoinFour(parts);
      assert Fields(tp, parts[0], parts[1], parts[2], parts[3]);
    }
    if FourFields(tp) {
      var version, trace, parent, flags :| Fields(tp, version, trace, parent, flags);
      SplitFour(version, trace, parent, flags);
    }
  }

  lemma {:induction false} JoinFour(parts: seq<string>)
    requires |parts| == 4
    ensures Join(parts) == parts[0] + [DASH] + parts[1] + [DASH] + parts[2] + [DASH] + parts[3]
  {
    assert parts[1..][1..] == parts[2..] && parts[2..][1..] == parts[3..] == [parts[3]];
    assert Join(parts[2..]) == parts[2] + [DASH] + Join(parts[3..]);
    assert Join(parts[1..]) == parts[1] + [DASH] + Join(parts[2..]);
  }

  lemma {:induction false} SplitFour(version: string, trace: string, parent: string, flags: string)
    requires DashFree(version) && DashFree(trace) && DashFree(parent) && DashFree(flags)
    ensures Split(version + [DASH] + trace + [DASH] + parent + [DASH] + flags) == [version, trace, parent, flags]
  {
    hide Split;
    SplitAtDash(version, trace);
    SplitAtDash(version + [DASH] + trace, parent);
    SplitAtDash(version + [DASH] + trace + [DASH] + parent, flags);
    SplitWhole(version);
    SplitWhole(trace);
    SplitWhole(parent);
    SplitWhole(flags);
  }

  lemma {:induction false} FirstSeen(h: Headers, hops: seq<Hop>) returns (k: nat)
    requires Travel(h, hops).seen != []
    ensures k < |hops| && hops[k].Sampled? && forall i :: 0 <= i < k ==> hops[i].Skipped?
    ensures Travel(h, hops).seen[0] == Extract(h, hops[k].freshTrace, hops[k].freshSpan)
    decreases |hops|
  {
    hide Extract, Emit;
    var n := |hops| - 1;
    if Travel(h, hops[..n]).seen == [] {
      NoneSampled(h, hops[..n]);
      k := n;
    } else {
      k := FirstSeen(h, hops[..n]);
    }
  }

  lemma {:induction false} NoneSampled(h: Headers, hops: seq<Hop>)
    requires Travel(h, hops).seen == []
    ensures Travel(h, hops).headers == h && forall i :: 0 <= i < |hops| ==> hops[i].Skipped?
    decreases |hops|
  {
    if hops != [] {
      NoneSampled(h, hops[..|hops| - 1]);
    }
  }

  /** Every sampled hop, and no other, sees the request. */
  lemma {:induction false} EveryHopIsSeen(h: Headers, hops: seq<Hop>)
    ensures |Travel(h, hops).seen| == |set i | 0 <= i < |hops| && hops[i].Sampled?|
    decreases |hops|
  {
    hide Extract, Emit;
    if hops != [] {
      var n := |hops| - 1;
      EveryHopIsSeen(h, hops[..n]);
      var before := set i | 0 <= i < n && hops[..n][i].Sampled?;
      assert (set i | 0 <= i < |hops| && hops[i].Sampled?) == if hops[n].Sampled? then before + {n} else before;
    }
  }

  /**
   * Where the one trace of a journey comes from: the second and third field of a four-field header; for
   * want of one, the two plain headers; for want of those, the first sampling hop, with no parent.
   */
  lemma {:induction false} TraceComesFrom(h: Headers, hops: seq<Hop>, i: nat) returns (first: nat)
    requires forall j :: 0 <= j < |hops| && hops[j].Sampled? ==> DashFree(hops[j].freshSpan)
    requires i < |Travel(h, hops).seen|
    ensures first < |hops| && hops[first].Sampled? && forall j :: 0 <= j < first ==> hops[j].Skipped?
    ensures var seen := Travel(h, hops).seen;
            && (forall version, trace, parent, flags :: Fields(h.traceparent, version, trace, parent, flags) ==>
                  seen[i].trace == trace && seen[0].parent == parent)
            && (!FourFields(h.traceparent) && h.traceId != "" ==>
                  seen[i].trace == h.traceId && seen[0].parent == h.spanId)
            && (!FourFields(h.traceparent) && h.traceId == "" ==>
                  seen[i].trace == hops[first].freshTrace && seen[0].parent == "")
  {
    hide Split, Travel, FourFields;
    OneTraceAcrossHops(h, hops);
    first := FirstSeen(h, hops);
    FourPartsAreFields(h.traceparent);
    forall version, trace, parent, flags | Fields(h.traceparent, version, trace, parent, flags)
      ensures |Split(h.traceparent)| == 4 && h.traceparent != ""
      ensures Split(h.traceparent)[1] == trace && Split(h.traceparent)[2] == parent
    {
      SplitFour(version, trace, parent, flags);
      assert |h.traceparent| > 0;
    }
  }
}
