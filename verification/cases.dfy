/** Worked cases of the engine on small inputs. Times are seconds since
    midnight of one day. */
module Cases {
  import opened Types
  import opened Clock
  import opened Grid
  import opened Matcher
  import opened Stale
  import opened ZeroFlags
  import opened ColumnTyping
  import opened Table
  import ResampleV10

  /** A reading held for five rows and then changed: the older rule flags
      its fourth and fifth rows, the newer its third to fifth. */
  lemma HeldReadingFlags()
    ensures var col := [Num(100), Num(100), Num(100), Num(100), Num(100), Num(105)];
      && StaleColumnV7(col) == [false, false, false, true, true, false]
      && StaleColumnV10(col, true) == [false, false, true, true, true, false]
  {
    var col := [Num(100), Num(100), Num(100), Num(100), Num(100), Num(105)];
    assert StaleColumnV7(col) == [false, false, false, true, true, false];
    assert StaleColumnV10(col, true) == [false, false, true, true, true, false];
  }

  /** The per-sensor matching frame: readings at 12:00, 12:15, 12:16:30,
      12:30 and 12:48 of three sensors, each with gaps. */
  function SensorA(): seq<Sample>
  {
    [Sample(43200, Num(100)), Sample(44100, Num(200)), Sample(44190, Missing),
     Sample(45000, Num(300)), Sample(46080, Missing)]
  }

  function SensorB(): seq<Sample>
  {
    [Sample(43200, Num(50)), Sample(44100, Missing), Sample(44190, Num(250)),
     Sample(45000, Num(350)), Sample(46080, Missing)]
  }

  function SensorC(): seq<Sample>
  {
    [Sample(43200, Num(10)), Sample(44100, Missing), Sample(44190, Missing),
     Sample(45000, Num(310)), Sample(46080, Num(410))]
  }

  /** The default window: two minutes either side. */
  const DefaultWindow: int := ResampleV10.DefaultToleranceMinutes * SecondsPerMinute

  /** At 12:15 with the default window, each sensor is matched on its own:
      the first copies its reading on the mark as exact; the second has a
      missing reading on the mark, which does not hide its 12:16:30 reading,
      copied as inexact; the third has nothing in the window and is missing. */
  lemma MatchingAtQuarterPast()
    ensures MatchCell(SensorA(), 44100, DefaultWindow) == Matched(Num(200), false)
    ensures MatchCell(SensorB(), 44100, DefaultWindow) == Matched(Num(250), true)
    ensures MatchCell(SensorC(), 44100, DefaultWindow) == Matched(Missing, false)
  {
    assert DefaultWindow == 120;
    assert IsNearest(SensorA(), 44100, 120, 1);
    assert IsNearest(SensorB(), 44100, 120, 2);
    assert !IsOnQuarterHour(44190);
    assert NoneEligible(SensorC(), 44100, 120);
  }

  /** At 12:45 no sensor has a reading within the default window (the
      nearest are at 12:30 and 12:48), so every cell is missing. */
  lemma NothingNearQuarterToOne()
    ensures MatchCell(SensorA(), 45900, DefaultWindow) == Matched(Missing, false)
    ensures MatchCell(SensorB(), 45900, DefaultWindow) == Matched(Missing, false)
    ensures MatchCell(SensorC(), 45900, DefaultWindow) == Matched(Missing, false)
  {
    assert DefaultWindow == 120;
    assert NoneEligible(SensorA(), 45900, 120);
    assert NoneEligible(SensorB(), 45900, 120);
    assert NoneEligible(SensorC(), 45900, 120);
  }

  /** Zeros at 12:00 and 12:15 are copied as zeros, not as missing values,
      over the grid 12:00, 12:15, 12:30 of that input. */
  lemma ZerosArePreserved()
    ensures var stores := [SensorStore("Sensor_A", true, [Sample(43200, Num(0)), Sample(44100, Num(0))]),
                           SensorStore("Sensor_B", true, [Sample(43200, Num(100)), Sample(44100, Num(0))])];
      MatchedColumns(stores, [43200, 44100, 45000], DefaultWindow)
        == [[Num(0), Num(0), Missing], [Num(100), Num(0), Missing]]
  {
    assert DefaultWindow == 120;
    var a := [Sample(43200, Num(0)), Sample(44100, Num(0))];
    var b := [Sample(43200, Num(100)), Sample(44100, Num(0))];
    assert IsNearest(a, 43200, 120, 0) && IsNearest(a, 44100, 120, 1) && NoneEligible(a, 45000, 120);
    assert IsNearest(b, 43200, 120, 0) && IsNearest(b, 44100, 120, 1) && NoneEligible(b, 45000, 120);
    var stores := [SensorStore("Sensor_A", true, a), SensorStore("Sensor_B", true, b)];
    var c := MatchedColumns(stores, [43200, 44100, 45000], 120);
    assert c[0] == [Num(0), Num(0), Missing];
    assert c[1] == [Num(100), Num(0), Missing];
  }

  /** A sensor reading zero in two consecutive rows outranks a single zero
      elsewhere in the same row. */
  lemma ZeroPriority()
    ensures ZeroFlagsOf([[Num(0), Num(0)], [Num(3), Num(0)]], [true, true], 2) == [Single, Repeated]
  {
    var columns := [[Num(0), Num(0)], [Num(3), Num(0)]];
    assert ZeroAt(columns, [true, true], 2, 0, 0);
    assert RepeatedZeroAt(columns, [true, true], 2, 1, 0);
  }

  /** Samples from 10:01:05 to 10:30:00 give the grid 10:00, 10:15, 10:30,
      10:45: the end moves one quarter past the latest sample even when that
      sample is already on the quarter-hour. */
  lemma GridOfHalfHour()
    ensures QuarterHourGrid(36065, 37800) == [36000, 36900, 37800, 38700]
  {
    var g := QuarterHourGrid(36065, 37800);
    assert FloorToQuarterHour(36065) == 36000;
    assert FloorToQuarterHour(37800) == 37800;
  }

  /** Four parseable entries out of five reach the default share and the
      column becomes numeric. */
  lemma FourOfFiveBecomesNumeric()
    ensures SmartConvertColumn(["1", "2", "3", "4", "x"], DefaultThreshold)
      == TypedColumn(true, [Num(1), Num(2), Num(3), Num(4), Missing])
  {
    var raw := ["1", "2", "3", "4", "x"];
    assert ParseInt("x") == None;
    assert Parsed(raw) == [true, true, true, true, false];
    assert MeetsShare(4, 5, DefaultThreshold);
  }

  /** Three parseable entries out of four fall short of the default share
      and the column keeps its text. */
  lemma ThreeOfFourStaysText()
    ensures SmartConvertColumn(["1", "2", "3", "x"], DefaultThreshold)
      == TypedColumn(false, [Text("1"), Text("2"), Text("3"), Text("x")])
  {
    var raw := ["1", "2", "3", "x"];
    assert ParseInt("x") == None;
    assert Parsed(raw) == [true, true, true, false];
    assert !MeetsShare(3, 4, DefaultThreshold);
  }
}
