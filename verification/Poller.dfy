/** The poller: one thread samples registers at every timer tick, another fetches what was sampled; two buffers take
    turns. Both sides hold the lock for their whole step, so a run is any interleaving of whole steps. */
module Poller {
  import opened Basics

  /** What one tick reads: the time and, for each channel, the value or a failure. */
  datatype Reading = Reading(time: int, values: seq<Option<int>>)

  /** One stored sample; unmapped channels hold nothing. */
  datatype Sample = Sample(time: int, values: seq<Option<int>>)

  /** What a buffer holds. */
  datatype Buffer = Buffer(samples: seq<Sample>, lost: bool)

  datatype Event = Tick(reading: Reading) | Get

  // ---------- the reference: what each fetch must return ----------

  predicate Complete(r: Reading, mapped: seq<bool>)
    requires |r.values| == |mapped|
  {
    forall ch :: 0 <= ch < |mapped| && mapped[ch] ==> r.values[ch].Some?
  }

  function Stored(r: Reading, mapped: seq<bool>): Sample
    requires |r.values| == |mapped|
  {
    Sample(r.time, seq(|mapped|, ch requires 0 <= ch < |mapped| => if mapped[ch] then r.values[ch] else None))
  }

  ghost predicate Fits(rs: seq<Reading>, mapped: seq<bool>) {
    forall i :: 0 <= i < |rs| ==> |rs[i].values| == |mapped|
  }

  // the samples of the complete readings
  function Samples(rs: seq<Reading>, mapped: seq<bool>): seq<Sample>
    requires Fits(rs, mapped)
  {
    if rs == [] then []
    else
      var r := rs[|rs| - 1];
      Samples(rs[..|rs| - 1], mapped) + (if Complete(r, mapped) then [Stored(r, mapped)] else [])
  }

  /** Each reading adds its sample unless a mapped channel failed; the sample has the time of the reading and the values
      of the mapped channels, and nothing for the others. */
  lemma {:induction false} SampleOf(rs: seq<Reading>, mapped: seq<bool>, i: nat)
    requires Fits(rs, mapped) && i < |rs|
    ensures var before, after := Samples(rs[..i], mapped), Samples(rs[..i + 1], mapped);
            if exists ch :: 0 <= ch < |mapped| && mapped[ch] && rs[i].values[ch] == None then after == before
            else
              && |after| == |before| + 1 && after[..|before|] == before && after[|before|].time == rs[i].time
              && |after[|before|].values| == |mapped|
              && forall ch :: 0 <= ch < |mapped| ==>
                   after[|before|].values[ch] == if mapped[ch] then rs[i].values[ch] else None
  {
    assert rs[..i + 1][..i] == rs[..i];
  }

  // some reading came when the buffer was full already
  ghost predicate Overrun(rs: seq<Reading>, mapped: seq<bool>, sz: nat)
    requires Fits(rs, mapped)
  {
    exists i :: 0 <= i < |rs| && |Samples(rs[..i], mapped)| >= sz
  }

  function First(s: seq<Sample>, n: nat): seq<Sample> {
    if |s| <= n then s else s[..n]
  }

  /** What must be returned for the readings between two fetches. */
  ghost function Expected(rs: seq<Reading>, mapped: seq<bool>, sz: nat): Buffer
    requires Fits(rs, mapped)
  {
    Buffer(First(Samples(rs, mapped), sz), Overrun(rs, mapped, sz))
  }

  // the readings before each fetch, and those since the last
  function Windows(evs: seq<Event>): (seq<seq<Reading>>, seq<Reading>) {
    if evs == [] then ([], [])
    else
      var (closed, open) := Windows(evs[..|evs| - 1]);
      match evs[|evs| - 1]
      case Tick(r) => (closed, open + [r])
      case Get => (closed + [open], [])
  }

  ghost predicate EventsFit(evs: seq<Event>, mapped: seq<bool>) {
    forall i :: 0 <= i < |evs| && evs[i].Tick? ==> |evs[i].reading.values| == |mapped|
  }

  // ---------- what the steps do ----------

  // one tick on the current buffer
  function AfterTick(b: Buffer, r: Reading, mapped: seq<bool>, sz: nat): Buffer
    requires |r.values| == |mapped|
  {
    if |b.samples| >= sz then b.(lost := true)
    else if Complete(r, mapped) then b.(samples := b.samples + [Stored(r, mapped)])
    else b
  }

  // the current buffer and all that were fetched
  function Play(evs: seq<Event>, mapped: seq<bool>, sz: nat): (Buffer, seq<Buffer>)
    requires EventsFit(evs, mapped)
  {
    if evs == [] then (Buffer([], false), [])
    else
      var (b, fetched) := Play(evs[..|evs| - 1], mapped, sz);
      match evs[|evs| - 1]
      case Tick(r) => (AfterTick(b, r, mapped, sz), fetched)
      case Get => (Buffer([], false), fetched + [b])
  }

  lemma {:induction false} TickExpected(rs: seq<Reading>, r: Reading, mapped: seq<bool>, sz: nat)
    requires Fits(rs, mapped) && |r.values| == |mapped|
    ensures Fits(rs + [r], mapped)
    ensures AfterTick(Expected(rs, mapped, sz), r, mapped, sz) == Expected(rs + [r], mapped, sz)
  {
    var all := rs + [r];
    assert all[..|rs|] == rs;
    forall i | 0 <= i < |rs| ensures all[..i] == rs[..i] { }
    if Overrun(rs, mapped, sz) {
      var i :| 0 <= i < |rs| && |Samples(rs[..i], mapped)| >= sz;
      assert |Samples(all[..i], mapped)| >= sz;
      SamplesGrow(rs, i, mapped);
    }
    if |Samples(rs, mapped)| >= sz {
      assert |Samples(all[..|rs|], mapped)| >= sz;
    }
  }

  lemma {:induction false} SamplesGrow(rs: seq<Reading>, i: nat, mapped: seq<bool>)
    requires Fits(rs, mapped) && i <= |rs|
    ensures |Samples(rs[..i], mapped)| <= |Samples(rs, mapped)|
  {
    if i < |rs| {
      var m := |rs| - 1;
      SamplesGrow(rs[..m], i, mapped);
      assert rs[..m][..i] == rs[..i];
    } else {
      assert rs[..i] == rs;
    }
  }

  lemma {:induction false} WindowsFit(evs: seq<Event>, mapped: seq<bool>)
    requires EventsFit(evs, mapped)
    ensures Fits(Windows(evs).1, mapped)
    ensures forall k :: 0 <= k < |Windows(evs).0| ==> Fits(Windows(evs).0[k], mapped)
  {
    if evs != [] {
      WindowsFit(evs[..|evs| - 1], mapped);
    }
  }

  /** In every interleaving each fetch returns, in order, the complete samples since the last fetch, as many as the
      buffer holds, and is marked as having lost some exactly when a tick found the buffer full. */
  lemma {:induction false} EachFetchAsExpected(evs: seq<Event>, mapped: seq<bool>, sz: nat)
    requires EventsFit(evs, mapped)
    ensures var (closed, open) := Windows(evs);
            var (current, fetched) := Play(evs, mapped, sz);
            && Fits(open, mapped) && current == Expected(open, mapped, sz)
            && |fetched| == |closed|
            && forall k :: 0 <= k < |fetched| ==>
                  Fits(closed[k], mapped) && fetched[k] == Expected(closed[k], mapped, sz)
  {
    hide AfterTick, Expected;
    WindowsFit(evs, mapped);
    NothingExpected(mapped, sz);
    if evs != [] {
      var before := evs[..|evs| - 1];
      EachFetchAsExpected(before, mapped, sz);
      match evs[|evs| - 1]
      case Tick(r) =>
        TickExpected(Windows(before).1, r, mapped, sz);
      case Get =>
    }
  }

  lemma {:induction false} NothingExpected(mapped: seq<bool>, sz: nat)
    ensures Expected([], mapped, sz) == Buffer([], false)
  {
  }

  function Joined(bs: seq<Buffer>): seq<Sample> {
    if bs == [] then [] else Joined(bs[..|bs| - 1]) + bs[|bs| - 1].samples
  }

  function Readings(evs: seq<Event>): seq<Reading> {
    if evs == [] then []
    else
      var last := evs[|evs| - 1];
      Readings(evs[..|evs| - 1]) + (if last.Tick? then [last.reading] else [])
  }

  ghost predicate NoneLost(bs: seq<Buffer>) {
    forall k :: 0 <= k < |bs| ==> !bs[k].lost
  }

  lemma {:induction false} ReadingsFit(evs: seq<Event>, mapped: seq<bool>)
    requires EventsFit(evs, mapped)
    ensures Fits(Readings(evs), mapped)
  {
    if evs != [] {
      ReadingsFit(evs[..|evs| - 1], mapped);
    }
  }

  /** If no buffer is marked, the fetched buffers and the current one hold every complete sample exactly once, in the
      order of the ticks. */
  lemma {:induction false} NothingMissing(evs: seq<Event>, mapped: seq<bool>, sz: nat)
    requires EventsFit(evs, mapped)
    requires var (current, fetched) := Play(evs, mapped, sz); !current.lost && NoneLost(fetched)
    ensures Fits(Readings(evs), mapped)
    ensures var (current, fetched) := Play(evs, mapped, sz);
            Joined(fetched) + current.samples == Samples(Readings(evs), mapped)
  {
    hide Stored, Complete;
    ReadingsFit(evs, mapped);
    if evs != [] {
      var before := evs[..|evs| - 1];
      var (b, fetched) := Play(before, mapped, sz);
      match evs[|evs| - 1]
      case Tick(r) =>
        assert !b.lost && |b.samples| < sz;
        NothingMissing(before, mapped, sz);
        assert (Readings(before) + [r])[..|Readings(before)|] == Readings(before);
        if Complete(r, mapped) {
          assert Joined(fetched) + (b.samples + [Stored(r, mapped)])
              == Joined(fetched) + b.samples + [Stored(r, mapped)];
        }
      case Get =>
        assert (fetched + [b])[|fetched|] == b;
        assert NoneLost(fetched) by {
          assert forall k :: 0 <= k < |fetched| ==> (fetched + [b])[k] == fetched[k];
        }
        NothingMissing(before, mapped, sz);
        assert (fetched + [b])[..|fetched|] == fetched;
        assert Joined(fetched) + b.samples + [] == Joined(fetched) + b.samples;
        assert Readings(before) + [] == Readings(before);
    }
  }

  // ---------- the two buffers ----------

  class Acquisition {
    const t: array<int>
    const d: array2<int>
    var cnt: nat
    var lost: bool

    constructor (channels: nat, sz: nat)
      ensures fresh(t) && fresh(d) && t.Length == d.Length1 == sz && d.Length0 == channels
    {
      t := new int[sz];
      d := new int[channels, sz];
      cnt, lost := 0, false;
    }

    // sample k
    function Slot(k: nat, mapped: seq<bool>): Sample
      requires k < t.Length == d.Length1 && d.Length0 == |mapped|
      reads t, d
    {
      Sample(t[k], seq(|mapped|, ch requires 0 <= ch < |mapped| reads d => if mapped[ch] then Some(d[ch, k]) else None))
    }

    function Held(mapped: seq<bool>): Buffer
      requires cnt <= t.Length == d.Length1 && d.Length0 == |mapped|
      reads this, t, d
    {
      Buffer(seq(cnt, k requires 0 <= k < cnt <= t.Length == d.Length1 && d.Length0 == |mapped| reads this, t, d
                        => Slot(k, mapped)), lost)
    }
  }

  class Sampler {
    const sz: nat
    const mapped: seq<bool>              // which channels are mapped to a register
    const acq: (Acquisition, Acquisition)
    var acqCurr: nat
    var running: bool

    function Acq(i: nat): Acquisition { if i == 0 then acq.0 else acq.1 }

    ghost predicate Shaped(a: Acquisition)
      reads a
    {
      a.cnt <= sz == a.t.Length == a.d.Length1 && a.d.Length0 == |mapped|
    }

    ghost predicate Valid()
      reads this, acq.0, acq.1
    {
      && acqCurr <= 1 && Shaped(acq.0) && Shaped(acq.1)
      && acq.0 != acq.1 && acq.0.t != acq.1.t && acq.0.d != acq.1.d
    }

    // the buffer being filled, and the other
    function Current(): Acquisition
      reads this
    {
      Acq(acqCurr)
    }

    function Other(): Acquisition
      reads this
    {
      Acq(if acqCurr == 0 then 1 else 0)
    }

    // what the buffer being filled holds
    ghost function Filled(): Buffer
      reads this, acq.0, acq.1, acq.0.t, acq.1.t, acq.0.d, acq.1.d
      requires Valid()
    {
      Current().Held(mapped)
    }

    constructor (mapped: seq<bool>, sz: nat)
      ensures Valid() && this.mapped == mapped && this.sz == sz && Filled() == Buffer([], false)
      ensures fresh({acq.0, acq.1}) && fresh({acq.0.t, acq.1.t}) && fresh({acq.0.d, acq.1.d})
    {
      this.mapped, this.sz, acqCurr, running := mapped, sz, 0, false;
      var a := new Acquisition(|mapped|, sz);
      var b := new Acquisition(|mapped|, sz);
      acq := (a, b);
      new;
      acq.0.cnt, acq.0.lost := 0, false;
      acq.1.cnt, acq.1.lost := 0, false;
    }

    /** il_poller_start: refused while running; otherwise a session begins with an empty buffer. A timer or counter that
        fails leaves everything as it was, a thread that fails an emptied buffer and no session. */
    method Start(timerOk: bool, perfOk: bool, threadOk: bool) returns (ok: bool)
      requires Valid()
      modifies `running, Current()
      ensures Valid() && ok == (!old(running) && timerOk && perfOk && threadOk) && running == (old(running) || ok)
      ensures Filled() == if !old(running) && timerOk && perfOk then Buffer([], false) else old(Filled())
    {
      if running || !timerOk || !perfOk {
        return false;
      }
      Current().cnt := 0;
      Current().lost := false;
      if !threadOk {
        return false;
      }
      running := true;
      ok := true;
    }

    /** The locked part of one turn of poller_td. */
    method Tick(r: Reading)
      requires Valid() && |r.values| == |mapped|
      modifies Current(), Current().t, Current().d
      ensures Valid() && Filled() == AfterTick(old(Filled()), r, mapped, sz)
    {
      var a := Current();
      ghost var before := a.Held(mapped);
      if a.cnt >= sz {
        a.lost := true;
      } else {
        a.t[a.cnt] := r.time;
        var failed := ReadChannels(a, r);
        if !failed {
          assert a.Slot(a.cnt, mapped) == Stored(r, mapped);
          a.cnt := a.cnt + 1;
        }
        forall k | 0 <= k < old(a.cnt) ensures a.Slot(k, mapped) == before.samples[k] {
          assert before.samples[k] == old(a.Slot(k, mapped));
        }
        assert a.Held(mapped).samples == before.samples + (if failed then [] else [Stored(r, mapped)]);
      }
    }

    // reads the mapped channels into the slot after the last sample
    method ReadChannels(a: Acquisition, r: Reading) returns (failed: bool)
      requires Shaped(a) && a.cnt < sz && |r.values| == |mapped|
      modifies a.d
      ensures failed <==> !Complete(r, mapped)
      ensures forall ch, k :: 0 <= ch < |mapped| && 0 <= k < sz && k != a.cnt ==> a.d[ch, k] == old(a.d[ch, k])
      ensures forall ch :: 0 <= ch < |mapped| && mapped[ch] && r.values[ch].Some? ==>
                a.d[ch, a.cnt] == r.values[ch].value
    {
      failed := false;
      for ch := 0 to |mapped|
        invariant failed <==> exists c :: 0 <= c < ch && mapped[c] && r.values[c].None?
        invariant forall c, k :: 0 <= c < |mapped| && 0 <= k < sz && k != a.cnt ==> a.d[c, k] == old(a.d[c, k])
        invariant forall c :: 0 <= c < ch && mapped[c] && r.values[c].Some? ==> a.d[c, a.cnt] == r.values[c].value
      {
        if mapped[ch] {
          match r.values[ch]
          case Some(v) => a.d[ch, a.cnt] := v;
          case None => failed := true;
        }
      }
    }

    /** il_poller_data_get: hands the filled buffer out and turns to the other, emptied. */
    method DataGet() returns (a: Acquisition)
      requires Valid()
      modifies this, acq.0, acq.1
      ensures Valid() && a == old(Current()) == Other() && a != Current()
      ensures a.Held(mapped) == old(Filled()) && Filled() == Buffer([], false)
    {
      a := Current();
      acqCurr := if acqCurr != 0 then 0 else 1;
      Current().cnt := 0;
      Current().lost := false;
    }

    /** Runs any interleaving of ticks and fetches. Each buffer is looked at only just before the next fetch, or at the
        end: by then it still holds what it held when it was handed out. */
    method Execute(evs: seq<Event>) returns (seen: seq<Buffer>)
      requires Valid() && EventsFit(evs, mapped) && Filled() == Buffer([], false)
      modifies this, acq.0, acq.1, acq.0.t, acq.1.t, acq.0.d, acq.1.d
      ensures Valid() && Filled() == Play(evs, mapped, sz).0
      ensures seen == Play(evs, mapped, sz).1
    {
      seen := [];
      var handed: Acquisition := Other();
      var any := false;
      for i := 0 to |evs|
        invariant Valid() && Filled() == Play(evs[..i], mapped, sz).0
        invariant any ==> handed == Other()
        invariant Play(evs[..i], mapped, sz).1 == seen + (if any then [handed.Held(mapped)] else [])
      {
        assert evs[..i + 1][..i] == evs[..i];
        match evs[i]
        case Tick(r) =>
          Tick(r);
        case Get =>
          if any {
            seen := seen + [handed.Held(mapped)];
          }
          handed := DataGet();
          any := true;
      }
      assert evs[..|evs|] == evs;
      if any {
        seen := seen + [handed.Held(mapped)];
      }
    }
  }
}
