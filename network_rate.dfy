/** Network throughput from cumulative byte counters (get_network_speed).

    The monitor keeps the counters and the timestamp of the previous call as its
    baseline. The operating-system counters and the clock are parameters here:
    `current` is what the counter query returned and `now` what the clock read.
 */
module NetworkRate {

  /** Cumulative byte counters of all interfaces. */
  datatype NetIo = NetIo(bytesSent: nat, bytesRecv: nat)

  /** The counters and the time of the previous call. */
  datatype Baseline = Baseline(io: NetIo, time: real)

  /** What one call returns: upload and download rates in bytes per second, then the
      cumulative totals. */
  datatype Speed = Speed(upload: real, download: real, totalSent: nat, totalRecv: nat)

  /** One call from baseline `last`: the speed it returns and the baseline it leaves.
      With no time elapsed the rates are zero and the baseline stays; otherwise each
      rate times the elapsed time is that counter's growth since the baseline (negative
      after a counter reset: nothing is clamped), and the baseline moves to the sample. */
  function Measure(last: Baseline, current: NetIo, now: real): (r: (Speed, Baseline))
    ensures r.0.totalSent == current.bytesSent && r.0.totalRecv == current.bytesRecv
    ensures now - last.time == 0.0 ==> r.0.upload == 0.0 && r.0.download == 0.0 && r.1 == last
    ensures now - last.time != 0.0 ==>
      && r.0.upload * (now - last.time) == (current.bytesSent - last.io.bytesSent) as real
      && r.0.download * (now - last.time) == (current.bytesRecv - last.io.bytesRecv) as real
      && r.1 == Baseline(current, now)
  {
    var elapsed := now - last.time;
    if elapsed == 0.0 then
      (Speed(0.0, 0.0, current.bytesSent, current.bytesRecv), last)
    else
      var upload := (current.bytesSent - last.io.bytesSent) as real / elapsed;
      var download := (current.bytesRecv - last.io.bytesRecv) as real / elapsed;
      (Speed(upload, download, current.bytesSent, current.bytesRecv), Baseline(current, now))
  }

  /** The baseline that the process-wide `last_net_io` / `last_time_net` pair holds. */
  class NetworkMonitor {
    var lastNetIo: NetIo
    var lastTime: real

    function State(): Baseline
      reads this
    {
      Baseline(lastNetIo, lastTime)
    }

    /** The start-up sample taken when the module is loaded. */
    constructor (initial: NetIo, start: real)
      ensures lastNetIo == initial && lastTime == start
    {
      lastNetIo := initial;
      lastTime := start;
    }

    /** One call of the rate calculator on the sample (current, now). */
    method GetNetworkSpeed(current: NetIo, now: real) returns (speed: Speed)
      modifies this
      ensures (speed, State()) == Measure(old(State()), current, now)
      ensures speed.totalSent == current.bytesSent && speed.totalRecv == current.bytesRecv
      ensures now - old(lastTime) == 0.0 ==>
        speed.upload == 0.0 && speed.download == 0.0 && unchanged(this)
      ensures now - old(lastTime) != 0.0 ==>
        && speed.upload == (current.bytesSent - old(lastNetIo).bytesSent) as real / (now - old(lastTime))
        && speed.download == (current.bytesRecv - old(lastNetIo).bytesRecv) as real / (now - old(lastTime))
        && lastNetIo == current && lastTime == now
    {
      var elapsed := now - lastTime;
      if elapsed == 0.0 {
        return Speed(0.0, 0.0, current.bytesSent, current.bytesRecv);
      }
      var sentDiff := current.bytesSent - lastNetIo.bytesSent;
      var recvDiff := current.bytesRecv - lastNetIo.bytesRecv;
      var upload := sentDiff as real / elapsed;
      var download := recvDiff as real / elapsed;
      lastNetIo := current;
      lastTime := now;
      speed := Speed(upload, download, current.bytesSent, current.bytesRecv);
    }
  }

  /** An example: from (sent 1000, received 2000, time 0) to (3000, 2500, time 2) the
      rates are 1000 and 250 bytes per second. */
  lemma RateExample()
    ensures Measure(Baseline(NetIo(1000, 2000), 0.0), NetIo(3000, 2500), 2.0).0
         == Speed(1000.0, 250.0, 3000, 2500)
  {
  }

  /** A counter that went backwards (an interface reset) gives a negative rate when time moved forward. */
  lemma CounterResetGivesNegativeRate(last: Baseline, current: NetIo, now: real)
    requires now > last.time && current.bytesSent < last.io.bytesSent
    ensures Measure(last, current, now).0.upload < 0.0
  {
    var r := Measure(last, current, now);
    var elapsed := now - last.time;
    assert r.0.upload * elapsed < 0.0;
  }

  /** A sample taken one after another by the monitor. */
  datatype Sample = Sample(io: NetIo, time: real)

  /** The baseline left after feeding the samples, in order, to the rate calculator. */
  function FinalBaseline(b: Baseline, samples: seq<Sample>): Baseline
    decreases |samples|
  {
    if samples == [] then b
    else FinalBaseline(Measure(b, samples[0].io, samples[0].time).1, samples[1..])
  }

  /** Byte counts in both directions. */
  datatype Traffic = Traffic(sent: real, recv: real)

  /** The bytes the returned rates account for over the samples: the sum of each
      call's rate times the time elapsed since that call's baseline. */
  function Accounted(b: Baseline, samples: seq<Sample>): Traffic
    decreases |samples|
  {
    if samples == [] then Traffic(0.0, 0.0)
    else
      var r := Measure(b, samples[0].io, samples[0].time);
      var elapsed := samples[0].time - b.time;
      var rest := Accounted(r.1, samples[1..]);
      Traffic(r.0.upload * elapsed + rest.sent, r.0.download * elapsed + rest.recv)
  }

  /** Each call's rate covers exactly the bytes moved since the previous baseline, so over
      any run of calls the rates account for every byte between the first and the last
      baseline: nothing is counted twice and nothing is lost, zero-elapsed calls included. */
  lemma {:induction false} RatesAccountForAllTraffic(b: Baseline, samples: seq<Sample>)
    ensures Accounted(b, samples).sent == (FinalBaseline(b, samples).io.bytesSent - b.io.bytesSent) as real
    ensures Accounted(b, samples).recv == (FinalBaseline(b, samples).io.bytesRecv - b.io.bytesRecv) as real
    decreases |samples|
  {
    if samples != [] {
      var r := Measure(b, samples[0].io, samples[0].time);
      RatesAccountForAllTraffic(r.1, samples[1..]);
    }
  }

  /** Zero-elapsed calls never move the baseline, so a run of them is measured from the same
      baseline as the first: repeated calls within one clock tick change nothing. */
  lemma {:induction false} ZeroElapsedCallsKeepBaseline(b: Baseline, samples: seq<Sample>)
    requires forall i :: 0 <= i < |samples| ==> samples[i].time == b.time
    ensures FinalBaseline(b, samples) == b
    ensures Accounted(b, samples) == Traffic(0.0, 0.0)
    decreases |samples|
  {
    if samples != [] {
      assert samples[0].time - b.time == 0.0;
      assert Measure(b, samples[0].io, samples[0].time).1 == b;
      ZeroElapsedCallsKeepBaseline(b, samples[1..]);
    }
  }
}
