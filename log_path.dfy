/**
  The file name `output_log` writes to: the base path, `_`, the wall-clock time
  of day as `HH-MM-SS` (`strftime('%H-%M-%S')`) and `.csv`.

  The clock is a count of whole seconds since local midnight of the day the
  monitor started, so the time of day is that count modulo 86400.
 */
module LogPath {
  import opened Duration

  const SecondsPerDay: nat := 86400

  function Stamp(now: nat): (s: string)
  {
    var t := now % SecondsPerDay;
    var hour, minute, second := t / 3600, t % 3600 / 60, t % 3600 % 60;
    Pad2(hour) + "-" + Pad2(minute) + "-" + Pad2(second)
  }

  function CsvPath(base: string, now: nat): (path: string)
  {
    base + "_" + Stamp(now) + ".csv"
  }

  lemma Pad2Injective(a: nat, b: nat)
    requires a < 100 && b < 100 && Pad2(a) == Pad2(b)
    ensures a == b
  {
    assert Pad2(a)[0] == Pad2(b)[0] && Pad2(a)[1] == Pad2(b)[1];
    assert a == a / 10 * 10 + a % 10;
  }

  /** A second of the day is determined by its hour, minute and second fields. */
  lemma ClockFieldsDetermine(t1: nat, t2: nat)
    requires t1 / 3600 == t2 / 3600 && t1 % 3600 / 60 == t2 % 3600 / 60 && t1 % 3600 % 60 == t2 % 3600 % 60
    ensures t1 == t2
  {
  }

  /** Equal stamps mean the same second of the day. */
  lemma StampInjective(now1: nat, now2: nat)
    requires Stamp(now1) == Stamp(now2)
    ensures now1 % SecondsPerDay == now2 % SecondsPerDay
  {
    var t1, t2 := now1 % SecondsPerDay, now2 % SecondsPerDay;
    var h1, m1, x1 := t1 / 3600, t1 % 3600 / 60, t1 % 3600 % 60;
    var h2, m2, x2 := t2 / 3600, t2 % 3600 / 60, t2 % 3600 % 60;
    var s1, s2 := Stamp(now1), Stamp(now2);
    assert s1 == Pad2(h1) + "-" + Pad2(m1) + "-" + Pad2(x1);
    assert s2 == Pad2(h2) + "-" + Pad2(m2) + "-" + Pad2(x2);
    assert s1[..2] == Pad2(h1) && s2[..2] == Pad2(h2);
    assert s1[3..5] == Pad2(m1) && s2[3..5] == Pad2(m2);
    assert s1[6..] == Pad2(x1) && s2[6..] == Pad2(x2);
    Pad2Injective(h1, h2);
    Pad2Injective(m1, m2);
    Pad2Injective(x1, x2);
    ClockFieldsDetermine(t1, t2);
  }

  /**
    Two outputs get the same file exactly when they happen in the same second of
    the day: outputs within one day never overwrite each other unless they fall
    in the same second, and outputs a whole number of days apart collide.
   */
  lemma CsvPathDistinct(base: string, now1: nat, now2: nat)
    ensures CsvPath(base, now1) == CsvPath(base, now2) <==> now1 % SecondsPerDay == now2 % SecondsPerDay
  {
    var p1, p2 := CsvPath(base, now1), CsvPath(base, now2);
    if p1 == p2 {
      assert |Stamp(now1)| == 8 && |Stamp(now2)| == 8;
      assert Stamp(now1) == p1[|base| + 1..|base| + 9];
      assert Stamp(now2) == p2[|base| + 1..|base| + 9];
      StampInjective(now1, now2);
    }
  }
}
