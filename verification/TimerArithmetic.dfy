/** The real arithmetic of the timers in EventQueue.cpp.
 */
module TimerArithmetic {

  lemma Quotient(a: real, b: real)
    requires b > 0.0
    ensures a / b * b == a
  {}

  lemma Scaled(a: real, b: real, c: real)
    requires c > 0.0 && a <= b
    ensures a * c <= b * c
    ensures a < b ==> a * c < b * c
  {}

  /** The quotient in Timer::fillEvent counts the periods begun by a timer that is late. */
  lemma LateBy(k: nat, timeout: real, late: real)
    requires timeout > 0.0 && late >= 0.0
    ensures k < ((timeout + late) / timeout).Floor <==> k as real * timeout <= late
  {
    var q := (timeout + late) / timeout;
    Quotient(timeout + late, timeout);
    var x := q - 1.0;
    assert x * timeout == late;
    if k < q.Floor {
      assert k as real <= x;
      Scaled(k as real, x, timeout);
    } else {
      assert k as real > x;
      Scaled(x, k as real, timeout);
    }
  }
}
