/** The touch-screen sampler (my_ts.c): three interrupt handlers that share four registers, a count and
    two sums.  What the hardware puts into adcdat0 and adcdat1 is a parameter of each handler. */
module TouchScreen {

  type Register = r: int | 0 <= r < 0x1_0000_0000

  const AUTO_CHANGE: Register := 0x0c
  const WAIT_DOWN: Register := 0xd3
  const WAIT_UP: Register := 0x1d3
  const COORDINATE_MAX := 0x3ff

  /** Bit 15 of adcdat0 is set while the pen is up. */
  predicate Down(adcdat0: Register) {
    adcdat0 / 0x8000 % 2 == 0
  }

  /** A conversion result: the low ten bits of both data registers. */
  datatype Sample = Sample(x: nat, y: nat)

  function SampleOf(adcdat0: Register, adcdat1: Register): (s: Sample)
    ensures s.x <= COORDINATE_MAX && s.y <= COORDINATE_MAX
  {
    Sample(adcdat0 % 0x400, adcdat1 % 0x400)
  }

  /** What input_sync delivers: a touch at a point, or the release of the pen. */
  datatype Report = Touch(x: nat, y: nat) | Release

  // ---- What should be reported ---------------------------------------------------------------------

  function SumX(s: seq<Sample>): nat {
    if s == [] then 0 else SumX(s[..|s| - 1]) + s[|s| - 1].x
  }

  function SumY(s: seq<Sample>): nat {
    if s == [] then 0 else SumY(s[..|s| - 1]) + s[|s| - 1].y
  }

  /** The rounded-down average of four samples. */
  function Average(s: seq<Sample>): Report
    requires |s| == 4
  {
    Touch((s[0].x + s[1].x + s[2].x + s[3].x) / 4, (s[0].y + s[1].y + s[2].y + s[3].y) / 4)
  }

  /** The conversions with the pen down are taken in fives: four are averaged, at the fifth the average
      is reported.  This is what is reported of all of them, and what is left for the next report. */
  function Points(samples: seq<Sample>): seq<Report> {
    if |samples| < 5 then [] else [Average(samples[..4])] + Points(samples[5..])
  }

  function Pending(samples: seq<Sample>): (rest: seq<Sample>)
    ensures |rest| < 5 && |rest| == |samples| % 5
  {
    if |samples| < 5 then samples else Pending(samples[5..])
  }

  lemma {:induction false} OneMore(samples: seq<Sample>, s: Sample)
    ensures Pending(samples + [s]) == if |Pending(samples)| == 4 then [] else Pending(samples) + [s]
    ensures Points(samples + [s])
         == Points(samples) + if |Pending(samples)| == 4 then [Average(Pending(samples))] else []
    decreases |samples|
  {
    var more := samples + [s];
    if |samples| >= 5 {
      assert more[5..] == samples[5..] + [s] && more[..4] == samples[..4];
      OneMore(samples[5..], s);
    } else if |samples| == 4 {
      assert more[5..] == [] && more[..4] == samples;
    }
  }

  lemma FourSums(s: seq<Sample>)
    requires |s| == 4
    ensures Average(s) == Touch(SumX(s) / 4, SumY(s) / 4)
  {
    assert s[..3][..2] == s[..2] && s[..2][..1] == s[..1] && s[..1][..0] == [];
    assert SumX(s[..1]) == s[0].x && SumX(s[..2]) == s[0].x + s[1].x && SumX(s[..3]) == s[0].x + s[1].x + s[2].x;
    assert SumY(s[..1]) == s[0].y && SumY(s[..2]) == s[0].y + s[1].y && SumY(s[..3]) == s[0].y + s[1].y + s[2].y;
  }

  predicate InRange(samples: seq<Sample>) {
    forall i :: 0 <= i < |samples| ==> samples[i].x <= COORDINATE_MAX && samples[i].y <= COORDINATE_MAX
  }

  /** Every coordinate that is reported fits the range the driver announced. */
  lemma {:induction false} PointsInRange(samples: seq<Sample>, i: nat)
    requires InRange(samples) && i < |Points(samples)|
    ensures Points(samples)[i].Touch? && Points(samples)[i].x <= COORDINATE_MAX && Points(samples)[i].y <= COORDINATE_MAX
    decreases |samples|
  {
    if i > 0 {
      PointsInRange(samples[5..], i - 1);
    }
  }

  function Touches(reports: seq<Report>): seq<Report> {
    if reports == [] then [] else
      var last := reports[|reports| - 1];
      Touches(reports[..|reports| - 1]) + if last.Touch? then [last] else []
  }

  lemma TouchesSnoc(reports: seq<Report>, r: Report)
    ensures Touches(reports + [r]) == Touches(reports) + if r.Touch? then [r] else []
  {
    assert (reports + [r])[..|reports|] == reports;
  }

  /** An interrupt, with what the data registers hold when it is handled. */
  datatype Interrupt = Ts(d0: Register) | Adc(d0: Register, d1: Register) | Timer(d0: Register)

  /** The result of a conversion that ended with the pen down. */
  function Conversion(irq: Interrupt): seq<Sample> {
    if irq.Adc? && Down(irq.d0) then [SampleOf(irq.d0, irq.d1)] else []
  }

  function Conversions(irqs: seq<Interrupt>): seq<Sample> {
    if irqs == [] then [] else Conversions(irqs[..|irqs| - 1]) + Conversion(irqs[|irqs| - 1])
  }

  /** The data registers of the conversions that ended with the pen down, which is bit 15 of the first. */
  function DownData(irqs: seq<Interrupt>): seq<(Register, Register)> {
    if irqs == [] then [] else
      var irq := irqs[|irqs| - 1];
      DownData(irqs[..|irqs| - 1]) + if irq.Adc? && irq.d0 % 0x1_0000 < 0x8000 then [(irq.d0, irq.d1)] else []
  }

  predicate SampledFrom(samples: seq<Sample>, data: seq<(Register, Register)>) {
    && |samples| == |data|
    && forall k :: 0 <= k < |data| ==> samples[k].x == data[k].0 % 0x400 && samples[k].y == data[k].1 % 0x400
  }

  /** The samples are the low ten bits of the two registers, in order. */
  lemma {:induction false} ConversionsAre(irqs: seq<Interrupt>)
    ensures SampledFrom(Conversions(irqs), DownData(irqs))
  {
    if irqs != [] {
      ConversionsAre(irqs[..|irqs| - 1]);
      if irqs[|irqs| - 1].Adc? { PenBit(irqs[|irqs| - 1].d0); }
    }
  }

  lemma PenBit(d0: Register)
    ensures Down(d0) <==> d0 % 0x1_0000 < 0x8000
  {
  }

  lemma AllServed(irqs: seq<Interrupt>)
    ensures Conversions(irqs[..|irqs|]) == Conversions(irqs)
  {
    assert irqs[..|irqs|] == irqs;
  }

  lemma OneMoreInterrupt(before: seq<Sample>, irqs: seq<Interrupt>, i: nat)
    requires i < |irqs|
    ensures before + Conversions(irqs[..i]) + Conversion(irqs[i]) == before + Conversions(irqs[..i + 1])
  {
    assert irqs[..i + 1][..i] == irqs[..i];
  }

  // ---- The driver -------------------------------------------------------------------------------------

  class Driver {
    var xp: nat
    var yp: nat
    var count: nat
    var adccon: Register
    var adctsc: Register
    /** All samples converted with the pen down, and all that was reported. */
    ghost var samples: seq<Sample>
    ghost var reports: seq<Report>

    ghost predicate Valid()
      reads this
    {
      var pending := Pending(samples);
      && count == |pending| && xp == SumX(pending) && yp == SumY(pending)
      && Touches(reports) == Points(samples) && InRange(samples)
    }

    /** The converter has been started in auto mode, or an interrupt is awaited. */
    predicate Armed()
      reads this
    {
      (adctsc == AUTO_CHANGE && adccon % 2 == 1) || adctsc == WAIT_DOWN || adctsc == WAIT_UP
    }

    constructor (adccon: Register, adctsc: Register)
      ensures Valid() && samples == [] && reports == []
    {
      xp, yp, count := 0, 0, 0;
      this.adccon, this.adctsc := adccon, adctsc;
      samples, reports := [], [];
    }

    /** myts_auto_change and myts_start_adc */
    method StartConversion()
      modifies `adctsc, `adccon
      ensures Armed() && adctsc == AUTO_CHANGE
    {
      adctsc := AUTO_CHANGE;
      adccon := if adccon % 2 == 0 then adccon + 1 else adccon;
    }

    method ReportRelease()
      requires Valid()
      modifies `reports
      ensures Valid() && reports == old(reports) + [Release]
    {
      TouchesSnoc(reports, Release);
      reports := reports + [Release];
    }

    /** myts_ts_irq: the pen went down or up.  A release does not touch the samples. */
    method TsIrq(adcdat0: Register)
      requires Valid()
      modifies `adctsc, `adccon, `reports
      ensures Valid() && Armed()
      ensures reports == if Down(adcdat0) then old(reports) else old(reports) + [Release]
      ensures adctsc == if adcdat0 % 0x1_0000 < 0x8000 then AUTO_CHANGE else WAIT_DOWN
    {
      PenBit(adcdat0);
      if Down(adcdat0) {
        StartConversion();
      } else {
        ReportRelease();
        adctsc := WAIT_DOWN;
      }
    }

    /** my_timer_func */
    method TimerFunc(adcdat0: Register)
      requires Valid()
      modifies `adctsc, `adccon
      ensures Valid() && Armed()
      ensures adctsc == if adcdat0 % 0x1_0000 < 0x8000 then AUTO_CHANGE else WAIT_DOWN
    {
      PenBit(adcdat0);
      if Down(adcdat0) {
        StartConversion();
      } else {
        adctsc := WAIT_DOWN;
      }
    }

    /** myts_adc_irq: a conversion has ended.  timer: the timer is to start. */
    method AdcIrq(adcdat0: Register, adcdat1: Register) returns (timer: bool)
      requires Valid()
      modifies this
      ensures Valid() && Armed()
      ensures samples == if Down(adcdat0) then old(samples) + [SampleOf(adcdat0, adcdat1)] else old(samples)
      ensures if adcdat0 % 0x1_0000 < 0x8000 then
                |samples| > 0 && samples[|samples| - 1].x == adcdat0 % 0x400 && samples[|samples| - 1].y == adcdat1 % 0x400
              else samples == old(samples)
      ensures timer <==> Down(adcdat0) && |Pending(old(samples))| == 4
      ensures timer ==> reports == old(reports) + [Average(Pending(old(samples)))] && adctsc == WAIT_UP
      ensures timer ==>
        var p, r := Pending(old(samples)), reports[|reports| - 1];
        && r.Touch? && r.x == (p[0].x + p[1].x + p[2].x + p[3].x) / 4 && r.y == (p[0].y + p[1].y + p[2].y + p[3].y) / 4
      ensures !timer ==> reports == if Down(adcdat0) then old(reports) else old(reports) + [Release]
    {
      timer := false;
      PenBit(adcdat0);
      if Down(adcdat0) {
        var s := SampleOf(adcdat0, adcdat1);
        OneMore(samples, s);
        ghost var pending := Pending(samples);
        assert (pending + [s])[..|pending|] == pending;
        if count == 4 {
          FourSums(pending);
          var r := Touch(xp / 4, yp / 4);
          TouchesSnoc(reports, r);
          reports := reports + [r];
          count, xp, yp := 0, 0, 0;
          timer := true;
          adctsc := WAIT_UP;
        } else {
          xp := xp + s.x;
          yp := yp + s.y;
          count := count + 1;
          StartConversion();
        }
        samples := samples + [s];
      } else {
        ReportRelease();
        adctsc := WAIT_DOWN;
      }
    }

    /** Any sequence of interrupts: the touches reported are the averages of the conversions with the pen
        down, in order, and within range. */
    method Serve(irqs: seq<Interrupt>)
      requires Valid()
      modifies this
      ensures Valid() && samples == old(samples) + Conversions(irqs)
      ensures SampledFrom(samples[|old(samples)|..], DownData(irqs))
      ensures Touches(reports) == Points(old(samples) + Conversions(irqs))
      ensures forall i :: 0 <= i < |Touches(reports)| ==>
        Touches(reports)[i].Touch? && Touches(reports)[i].x <= COORDINATE_MAX && Touches(reports)[i].y <= COORDINATE_MAX
      ensures irqs != [] ==> Armed()
    {
      var i := 0;
      while i < |irqs|
        invariant 0 <= i <= |irqs| && Valid() && samples == old(samples) + Conversions(irqs[..i])
        invariant i > 0 ==> Armed()
      {
        OneMoreInterrupt(old(samples), irqs, i);
        Handle(irqs[i]);
        i := i + 1;
      }
      AllServed(irqs);
      ConversionsAre(irqs);
      assert samples[|old(samples)|..] == Conversions(irqs);
      TouchesInRange();
    }

    /** One interrupt. */
    method Handle(irq: Interrupt)
      requires Valid()
      modifies this
      ensures Valid() && Armed() && samples == old(samples) + Conversion(irq)
    {
      match irq
      case Ts(d0) => TsIrq(d0);
      case Adc(d0, d1) => var _ := AdcIrq(d0, d1);
      case Timer(d0) => TimerFunc(d0);
    }

    lemma TouchesInRange()
      requires Valid()
      ensures forall i :: 0 <= i < |Touches(reports)| ==>
        Touches(reports)[i].Touch? && Touches(reports)[i].x <= COORDINATE_MAX && Touches(reports)[i].y <= COORDINATE_MAX
    {
      forall i | 0 <= i < |Points(samples)|
        ensures Points(samples)[i].Touch? && Points(samples)[i].x <= COORDINATE_MAX && Points(samples)[i].y <= COORDINATE_MAX
      {
        PointsInRange(samples, i);
      }
    }
  }
}
