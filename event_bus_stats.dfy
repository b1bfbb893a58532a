/**
 * The latency statistics of src/event_bus_stats.c: a ring of the last
 * EB_STAT_HIST_DEPTH samples and running min, max, max-holder name and a
 * halving average.
 */
module EventBusStats {
  import opened Common

  /** `struct event_bus_hist`: a name buffer, the event id and the latency. */
  datatype Sample = Sample(name: seq<char>, eventId: u32, lat: u32)

  function ZeroSample(nameMaxLen: nat): Sample
  {
    Sample(Zeros(nameMaxLen), 0, 0)
  }

  /** The ring index after one write: one further, wrapping to 0 at the depth. */
  function NextIndex(i: nat, depth: nat): (j: nat)
    requires i < depth
    ensures j < depth
    ensures j == (i + 1) % depth
  {
    if i + 1 >= depth then 0 else i + 1
  }

  /** The ring: the history entries and the index of the next write. */
  datatype Ring = Ring(hist: seq<Sample>, index: nat)

  /** A sample is storable in a ring whose name buffers hold `nameMaxLen` characters. */
  predicate Storable(nameMaxLen: nat, name: seq<char>)
  {
    '\0' !in name && |name| < nameMaxLen
  }

  predicate WellFormedRing(r: Ring, nameMaxLen: nat)
  {
    && r.index < |r.hist|
    && forall i :: 0 <= i < |r.hist| ==> |r.hist[i].name| == nameMaxLen
  }

  /** One step of eb_stats_add on the ring: the entry at the index receives the
      sample and every other entry is unchanged; the index moves on. */
  function Record(r: Ring, nameMaxLen: nat, name: seq<char>, eventId: u32, lat: u32): (r': Ring)
    requires WellFormedRing(r, nameMaxLen) && Storable(nameMaxLen, name)
    ensures WellFormedRing(r', nameMaxLen) && |r'.hist| == |r.hist|
    ensures r'.index == NextIndex(r.index, |r.hist|)
    ensures CString(r'.hist[r.index].name) == name
    ensures r'.hist[r.index].eventId == eventId && r'.hist[r.index].lat == lat
    ensures forall i :: 0 <= i < |r.hist| && i != r.index ==> r'.hist[i] == r.hist[i]
  {
    var entry := r.hist[r.index];
    Ring(r.hist[r.index := Sample(StrCpy(entry.name, name), eventId, lat)], NextIndex(r.index, |r.hist|))
  }

  /** Record each sample of `samples` in turn. */
  function RecordAll(r: Ring, nameMaxLen: nat, samples: seq<Sample>): (r': Ring)
    requires WellFormedRing(r, nameMaxLen)
    requires forall k :: 0 <= k < |samples| ==> Storable(nameMaxLen, samples[k].name)
    ensures WellFormedRing(r', nameMaxLen) && |r'.hist| == |r.hist|
    decreases |samples|
  {
    if samples == [] then r
    else RecordAll(Record(r, nameMaxLen, samples[0].name, samples[0].eventId, samples[0].lat), nameMaxLen, samples[1..])
  }

  /** Recording samples while the ring has room before its end leaves every
      entry outside the written stretch unchanged. */
  lemma {:induction false} RecordAllFrame(r: Ring, nameMaxLen: nat, samples: seq<Sample>)
    requires WellFormedRing(r, nameMaxLen)
    requires forall k :: 0 <= k < |samples| ==> Storable(nameMaxLen, samples[k].name)
    requires r.index + |samples| <= |r.hist|
    ensures var out := RecordAll(r, nameMaxLen, samples);
            forall i :: 0 <= i < r.index || r.index + |samples| <= i < |r.hist| ==> out.hist[i] == r.hist[i]
    decreases |samples|
  {
    if samples != [] {
      var s := samples[0];
      var r1 := Record(r, nameMaxLen, s.name, s.eventId, s.lat);
      assert RecordAll(r, nameMaxLen, samples) == RecordAll(r1, nameMaxLen, samples[1..]);
      if |samples| > 1 {
        RecordAllFrame(r1, nameMaxLen, samples[1..]);
      }
    }
  }

  /** Samples recorded while the ring has room before its end are found, in
      insertion order, from the starting index on; nothing else changes, and the
      index ends one past the last of them, wrapped to 0 at the end of the ring. */
  lemma {:induction false} RecordAllInOrder(r: Ring, nameMaxLen: nat, samples: seq<Sample>)
    requires WellFormedRing(r, nameMaxLen)
    requires forall k :: 0 <= k < |samples| ==> Storable(nameMaxLen, samples[k].name)
    requires r.index + |samples| <= |r.hist|
    ensures var out := RecordAll(r, nameMaxLen, samples);
            && (r.index + |samples| < |r.hist| ==> out.index == r.index + |samples|)
            && (r.index + |samples| == |r.hist| ==> out.index == 0)
    ensures var out := RecordAll(r, nameMaxLen, samples);
            forall k :: 0 <= k < |samples| ==>
              && CString(out.hist[r.index + k].name) == samples[k].name
              && out.hist[r.index + k].eventId == samples[k].eventId
              && out.hist[r.index + k].lat == samples[k].lat
    ensures var out := RecordAll(r, nameMaxLen, samples);
            forall i :: 0 <= i < r.index || r.index + |samples| <= i < |r.hist| ==> out.hist[i] == r.hist[i]
    decreases |samples|
  {
    RecordAllFrame(r, nameMaxLen, samples);
    if samples != [] {
      var s := samples[0];
      var r1 := Record(r, nameMaxLen, s.name, s.eventId, s.lat);
      var rest := samples[1..];
      assert RecordAll(r, nameMaxLen, samples) == RecordAll(r1, nameMaxLen, rest);
      if rest == [] {
        assert RecordAll(r1, nameMaxLen, rest) == r1;
      } else {
        assert r1.index == r.index + 1;
        RecordAllInOrder(r1, nameMaxLen, rest);
        var r' := RecordAll(r1, nameMaxLen, rest);
        assert r'.hist[r.index] == r1.hist[r.index];
        forall k | 1 <= k < |samples|
          ensures CString(r'.hist[r.index + k].name) == samples[k].name
          ensures r'.hist[r.index + k].eventId == samples[k].eventId
          ensures r'.hist[r.index + k].lat == samples[k].lat
        {
          assert samples[k] == rest[k - 1];
          assert r.index + k == r1.index + (k - 1);
        }
      }
    }
  }

  /** Once a ring filled from index 0 is full, the index is back at 0, where the
      oldest sample sits, and the next sample replaces that one and no other. */
  lemma {:induction false} FullRingOverwritesOldest(r: Ring, nameMaxLen: nat, samples: seq<Sample>, s: Sample)
    requires WellFormedRing(r, nameMaxLen) && r.index == 0 && |samples| == |r.hist|
    requires forall k :: 0 <= k < |samples| ==> Storable(nameMaxLen, samples[k].name)
    requires Storable(nameMaxLen, s.name)
    ensures var full := RecordAll(r, nameMaxLen, samples);
            && full.index == 0
            && CString(full.hist[0].name) == samples[0].name
            && full.hist[0].eventId == samples[0].eventId && full.hist[0].lat == samples[0].lat
    ensures var next := Record(RecordAll(r, nameMaxLen, samples), nameMaxLen, s.name, s.eventId, s.lat);
            && CString(next.hist[0].name) == s.name
            && next.hist[0].eventId == s.eventId && next.hist[0].lat == s.lat
    ensures var full := RecordAll(r, nameMaxLen, samples);
            var next := Record(full, nameMaxLen, s.name, s.eventId, s.lat);
            forall k :: 1 <= k < |samples| ==> next.hist[k] == full.hist[k]
  {
    RecordAllInOrder(r, nameMaxLen, samples);
  }

  /** Recording one more sample after a sequence is one more Record step. */
  lemma {:induction false} RecordAllAppend(r: Ring, nameMaxLen: nat, samples: seq<Sample>, s: Sample)
    requires WellFormedRing(r, nameMaxLen)
    requires forall k :: 0 <= k < |samples| ==> Storable(nameMaxLen, samples[k].name)
    requires Storable(nameMaxLen, s.name)
    ensures RecordAll(r, nameMaxLen, samples + [s]) ==
            Record(RecordAll(r, nameMaxLen, samples), nameMaxLen, s.name, s.eventId, s.lat)
    decreases |samples|
  {
    if samples == [] {
      assert [] + [s] == [s];
      assert [s][1..] == [];
    } else {
      var r1 := Record(r, nameMaxLen, samples[0].name, samples[0].eventId, samples[0].lat);
      assert (samples + [s])[0] == samples[0];
      assert (samples + [s])[1..] == samples[1..] + [s];
      RecordAllAppend(r1, nameMaxLen, samples[1..], s);
    }
  }

  /** `x` has remainder `r` and quotient `q` modulo `d` whenever `x == d * q + r`
      with `0 <= r < d`. */
  lemma ModOfDecomposition(x: int, d: int, q: int, r: int)
    requires d > 0 && x == d * q + r && 0 <= r < d
    ensures x % d == r
  {
    assert d * (x / d + 1) == d * (x / d) + d;
    assert d * (q + 1) == d * q + d;
    MulCancelLess(d, q, x / d + 1);
    MulCancelLess(d, x / d, q + 1);
  }

  /** Multiplication by a positive factor keeps strict order. */
  lemma MulCancelLess(d: int, a: int, b: int)
    requires d > 0 && d * a < d * b
    ensures a < b
  {
  }

  /** Stepping the ring index tracks the count of writes modulo the depth. */
  lemma NextIndexOfMod(n: nat, d: nat)
    requires d > 0
    ensures NextIndex(n % d, d) == (n + 1) % d
  {
    var q := n / d;
    if n % d + 1 < d {
      ModOfDecomposition(n + 1, d, q, n % d + 1);
    } else {
      assert n + 1 == d * (q + 1) + 0;
      ModOfDecomposition(n + 1, d, q + 1, 0);
    }
  }

  /** Two write counts less than a depth apart land in different ring entries. */
  lemma ModDistinct(k: nat, n: nat, d: nat)
    requires 0 < n - k < d
    ensures k % d != n % d
  {
    var q, m := k / d, k % d;
    if m + (n - k) < d {
      ModOfDecomposition(n, d, q, m + (n - k));
    } else {
      assert n == d * (q + 1) + (m + (n - k) - d);
      ModOfDecomposition(n, d, q + 1, m + (n - k) - d);
    }
  }

  /** The ring as a FIFO of the last `depth` samples: filled from index 0, after
      any number of samples the index is their count modulo the depth, and each
      of the last `depth` samples (all of them while fewer were recorded) sits in
      the entry its position selects modulo the depth. Older samples have been
      overwritten. */
  lemma {:induction false} RecordAllKeepsLatest(r: Ring, nameMaxLen: nat, samples: seq<Sample>)
    requires WellFormedRing(r, nameMaxLen) && r.index == 0
    requires forall k :: 0 <= k < |samples| ==> Storable(nameMaxLen, samples[k].name)
    ensures RecordAll(r, nameMaxLen, samples).index == |samples| % |r.hist|
    ensures var out := RecordAll(r, nameMaxLen, samples);
            forall k :: 0 <= k < |samples| && |samples| - |r.hist| <= k ==>
              && CString(out.hist[k % |r.hist|].name) == samples[k].name
              && out.hist[k % |r.hist|].eventId == samples[k].eventId
              && out.hist[k % |r.hist|].lat == samples[k].lat
    decreases |samples|
  {
    var d := |r.hist|;
    if samples != [] {
      var n := |samples| - 1;
      var front, last := samples[..n], samples[n];
      assert samples == front + [last];
      RecordAllKeepsLatest(r, nameMaxLen, front);
      RecordAllAppend(r, nameMaxLen, front, last);
      var mid := RecordAll(r, nameMaxLen, front);
      var r' := RecordAll(r, nameMaxLen, samples);
      assert r' == Record(mid, nameMaxLen, last.name, last.eventId, last.lat);
      NextIndexOfMod(n, d);
      forall k | 0 <= k < n && n + 1 - d <= k
        ensures r'.hist[k % d] == mid.hist[k % d] && front[k] == samples[k]
      {
        ModDistinct(k, n, d);
      }
      assert mid.index == n % d;
    }
  }

  /** The running aggregates of `struct event_bus_stats`. */
  datatype Aggregates = Aggregates(min: u32, avg: u32, max: u32, maxName: seq<char>)

  /** No non-zero sample has been recorded since the aggregates were zeroed. */
  predicate Unset(a: Aggregates)
  {
    a.min == 0 && a.avg == 0 && a.max == 0
  }

  /** `(avg + lat) / 2` on uint32: the sum wraps, the division truncates. */
  function HalvedSum(avg: u32, lat: u32): (h: u32)
    ensures avg + lat < UINT32_LIMIT ==> 2 * h <= avg + lat <= 2 * h + 1
    ensures avg + lat >= UINT32_LIMIT ==> 2 * h <= avg + lat - UINT32_LIMIT <= 2 * h + 1
  {
    ((avg + lat) % UINT32_LIMIT) / 2
  }

  /** The aggregate update of eb_stats_add. */
  function NextAggregates(a: Aggregates, name: seq<char>, lat: u32): (r: Aggregates)
    requires Storable(|a.maxName|, name)
    ensures |r.maxName| == |a.maxName|
    ensures Unset(a) ==> r.min == lat && r.avg == lat && r.max == lat && r.maxName == a.maxName
    ensures !Unset(a) ==> r.min <= a.min && r.min <= lat && (r.min == a.min || r.min == lat)
    ensures !Unset(a) ==> r.max >= lat && (r.max == a.max || r.max == lat)
    ensures r.max >= a.max
    ensures !Unset(a) ==> r.avg == HalvedSum(a.avg, lat)
    ensures r.maxName != a.maxName ==> !Unset(a) && lat > a.max
    ensures !Unset(a) && lat > a.max ==> CString(r.maxName) == name
  {
    if Unset(a) then Aggregates(lat, lat, lat, a.maxName)
    else
      var min := if lat < a.min then lat else a.min;
      var maxName := if lat > a.max then StrCpy(a.maxName, name) else a.maxName;
      var max := if lat > a.max then lat else a.max;
      Aggregates(min, HalvedSum(a.avg, lat), max, maxName)
  }

  predicate Ordered(a: Aggregates)
  {
    a.min <= a.avg <= a.max
  }

  /** min <= avg <= max is kept by every sample whose addition to the average
      does not wrap around. */
  lemma OrderPreserved(a: Aggregates, name: seq<char>, lat: u32)
    requires Storable(|a.maxName|, name)
    requires Ordered(a) && a.avg + lat < UINT32_LIMIT
    ensures Ordered(NextAggregates(a, name, lat))
  {
  }

  /** When the sum wraps, the average falls below the minimum. */
  lemma WrapBreaksOrder()
    ensures var a := Aggregates(0xFFFF_FFFF, 0xFFFF_FFFF, 0xFFFF_FFFF, Zeros(4));
            !Ordered(NextAggregates(a, "s", 0xFFFF_FFFF))
  {
  }

  /** The samples 10, 50 and 5 from a zeroed state leave min 5, max 50 and the
      50 sample's subscriber as the max holder. */
  lemma TenFiftyFive(buf: seq<char>)
    requires |buf| == 4
    ensures var a0 := Aggregates(0, 0, 0, buf);
            var a3 := NextAggregates(NextAggregates(NextAggregates(a0, "a", 10), "b", 50), "c", 5);
            a3.min == 5 && a3.max == 50 && CString(a3.maxName) == "b"
  {
  }

  /** A first sample sets the maximum but leaves the max-holder name untouched. */
  lemma FirstSampleKeepsMaxName(buf: seq<char>, name: seq<char>, lat: u32)
    requires Storable(|buf|, name) && lat > 0
    ensures var r := NextAggregates(Aggregates(0, 0, 0, buf), name, lat);
            r.max == lat && r.maxName == buf
  {
  }

  /** The global `stats` struct and the `stat_hist[]` ring. */
  class Stats {
    /** EB_STAT_HIST_DEPTH */
    const depth: u32
    /** EVT_SUB_NAME_MAX_LEN */
    const nameMaxLen: nat
    const hist: array<Sample>
    var latMin: u32
    var latAvg: u32
    var latMax: u32
    var index: u32
    var latMaxName: seq<char>

    ghost predicate Valid()
      reads this, hist
    {
      && depth > 0
      && hist.Length == depth
      && |latMaxName| == nameMaxLen
      && WellFormedRing(Ring(hist[..], index), nameMaxLen)
    }

    ghost function RingState(): Ring
      reads this, hist
    {
      Ring(hist[..], index)
    }

    ghost function Aggs(): Aggregates
      reads this
    {
      Aggregates(latMin, latAvg, latMax, latMaxName)
    }

    /** Static storage starts zeroed. */
    constructor (depth: u32, nameMaxLen: nat)
      requires depth > 0 && nameMaxLen > 0
      ensures Valid() && fresh(hist)
      ensures this.depth == depth && this.nameMaxLen == nameMaxLen
      ensures Aggs() == Aggregates(0, 0, 0, Zeros(nameMaxLen)) && index == 0
      ensures forall i :: 0 <= i < depth ==> hist[i] == ZeroSample(nameMaxLen)
    {
      this.depth := depth;
      this.nameMaxLen := nameMaxLen;
      hist := new Sample[depth](_ => ZeroSample(nameMaxLen));
      latMin, latAvg, latMax, index := 0, 0, 0, 0;
      latMaxName := Zeros(nameMaxLen);
    }

    /** eb_stats_init: zero the aggregates, the index and every history entry. */
    method Init() returns (r: int)
      requires depth > 0 && hist.Length == depth
      modifies this, hist
      ensures Valid() && r == 0
      ensures Aggs() == Aggregates(0, 0, 0, Zeros(nameMaxLen)) && index == 0
      ensures forall i :: 0 <= i < depth ==> hist[i] == ZeroSample(nameMaxLen)
    {
      latMin, latAvg, latMax, index := 0, 0, 0, 0;
      latMaxName := Zeros(nameMaxLen);
      forall i | 0 <= i < hist.Length {
        hist[i] := ZeroSample(nameMaxLen);
      }
      return 0;
    }

    /** eb_stats_add: write the sample at the index, update the aggregates and
        advance the index. */
    method Add(name: seq<char>, eventId: u32, latency: u32) returns (r: int)
      requires Valid() && Storable(nameMaxLen, name)
      modifies this, hist
      ensures Valid() && r == 0
      ensures RingState() == Record(old(RingState()), nameMaxLen, name, eventId, latency)
      ensures Aggs() == NextAggregates(old(Aggs()), name, latency)
    {
      hist[index] := hist[index].(name := StrCpy(hist[index].name, name));
      hist[index] := hist[index].(lat := latency);
      hist[index] := hist[index].(eventId := eventId);

      if latMin == 0 && latAvg == 0 && latMax == 0 {
        latMin := latency;
        latAvg := latency;
        latMax := latency;
      } else {
        if latency < latMin {
          latMin := latency;
        }
        if latency > latMax {
          latMax := latency;
          latMaxName := StrCpy(latMaxName, name);
        }
        latAvg := HalvedSum(latAvg, latency);
      }

      var next := index + 1;
      if next >= depth {
        next := 0;
      }
      index := next;
      return 0;
    }

    /** eb_stats_print as an observer: the aggregates, the max holder's name and
        every history entry in index order, names read as C strings. */
    method Report() returns (min: u32, max: u32, avg: u32, maxName: seq<char>, lines: seq<Sample>)
      requires Valid()
      ensures min == latMin && max == latMax && avg == latAvg && maxName == CString(latMaxName)
      ensures |lines| == depth
      ensures forall i :: 0 <= i < depth ==>
                lines[i] == Sample(CString(hist[i].name), hist[i].eventId, hist[i].lat)
    {
      min, max, avg, maxName := latMin, latMax, latAvg, CString(latMaxName);
      lines := [];
      var i := 0;
      while i < depth
        invariant i <= depth
        invariant |lines| == i
        invariant forall j :: 0 <= j < i ==>
                    lines[j] == Sample(CString(hist[j].name), hist[j].eventId, hist[j].lat)
      {
        lines := lines + [Sample(CString(hist[i].name), hist[i].eventId, hist[i].lat)];
        i := i + 1;
      }
    }
  }
}
