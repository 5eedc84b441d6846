/**
 * The deadline gate and the remaining-time display. Instants are integer
 * milliseconds since the epoch. The gate and the client page close at the
 * fixed `FechaCierre`; only the server's remaining-time query reads the
 * `FORM_CLOSE_DATE` override.
 */
module Deadline {
  import opened Wrappers
  import opened Text

  const MsPerMinute: nat := 1000 * 60
  const MsPerHour: nat := 1000 * 60 * 60
  const MsPerDay: nat := 1000 * 60 * 60 * 24

  /** `FORM_CONSTANTS.FECHA_CIERRE`, 2025-11-06T01:00:00-06:00, in milliseconds since the epoch. */
  const FechaCierre: int := 1762412400000

  /** `validarFechaLimite`: the form is open strictly before the cutoff. */
  predicate IsOpen(now: int, cutoff: int) {
    now < cutoff
  }

  /** The cutoff instant itself is already closed; the millisecond before it is open. */
  lemma CutoffIsClosed(cutoff: int)
    ensures !IsOpen(cutoff, cutoff) && IsOpen(cutoff - 1, cutoff)
  {
  }

  /** The configured gate closes at 2025-11-06T07:00:00Z (1762412400 seconds) and is open a millisecond before. */
  lemma GateClosesAtConfiguredInstant()
    ensures !IsOpen(1762412400 * 1000, FechaCierre)
    ensures IsOpen(1762412400 * 1000 - 1, FechaCierre)
  {
  }

  /** A remaining duration split for display. */
  datatype Remaining = Remaining(days: nat, hours: nat, minutes: nat)

  function Millis(r: Remaining): nat {
    r.days * MsPerDay + r.hours * MsPerHour + r.minutes * MsPerMinute
  }

  /** A positive multiple of `k` is at least `k`. */
  lemma {:induction false} MulAtLeast(d: nat, k: nat)
    requires d >= 1
    ensures d * k >= k
    decreases d
  {
    if d > 1 {
      MulAtLeast(d - 1, k);
      assert d * k == (d - 1) * k + k;
    }
  }

  /** Quotient and remainder are determined by the equation they satisfy. */
  lemma DivModUnique(x: nat, k: nat, q: nat, r: nat)
    requires k > 0 && r < k && x == q * k + r
    ensures x / k == q && x % k == r
  {
    var q', r' := x / k, x % k;
    assert x == q' * k + r';
    if q' < q {
      assert (q - q') * k == q * k - q' * k;
      MulAtLeast(q - q', k);
    } else if q' > q {
      assert (q' - q) * k == q' * k - q * k;
      MulAtLeast(q' - q, k);
    }
  }

  /**
   * The split of `obtenerTiempoRestante` and `useFormAvailability`:
   * `floor(diff / day)`, `floor((diff % day) / hour)`, `floor((diff % hour) / minute)`.
   * Hours and minutes stay below a day and an hour, and the parts add up to
   * the difference rounded down to a whole minute.
   */
  function SplitRemaining(diff: nat): (r: Remaining)
    ensures r.hours < 24 && r.minutes < 60
    ensures Millis(r) <= diff < Millis(r) + MsPerMinute
  {
    var days := diff / MsPerDay;
    var hours := (diff % MsPerDay) / MsPerHour;
    var minutes := (diff % MsPerHour) / MsPerMinute;
    var a := diff % MsPerDay;
    var b := a % MsPerHour;
    var c := b % MsPerMinute;
    assert a == hours * MsPerHour + b;
    assert b == (b / MsPerMinute) * MsPerMinute + c;
    assert diff == days * MsPerDay + a;
    assert diff == (days * 24 + hours) * MsPerHour + b;
    DivModUnique(diff, MsPerHour, days * 24 + hours, b);
    assert hours < 24 by {
      assert a < MsPerDay;
    }
    Remaining(days, hours, minutes)
  }

  /**
   * The split is the inverse of `Millis` on normalised durations: any time
   * within the minute after `Millis(r)` splits back into `r`.
   */
  lemma SplitOfMillis(r: Remaining, extra: nat)
    requires r.hours < 24 && r.minutes < 60 && extra < MsPerMinute
    ensures SplitRemaining(Millis(r) + extra) == r
  {
    var diff := Millis(r) + extra;
    var a := r.hours * MsPerHour + r.minutes * MsPerMinute + extra;
    var b := r.minutes * MsPerMinute + extra;
    assert a < MsPerDay by {
      assert r.hours * MsPerHour <= 23 * MsPerHour;
      assert r.minutes * MsPerMinute <= 59 * MsPerMinute;
    }
    assert b < MsPerHour by {
      assert r.minutes * MsPerMinute <= 59 * MsPerMinute;
    }
    DivModUnique(diff, MsPerDay, r.days, a);
    DivModUnique(diff, MsPerHour, r.days * 24 + r.hours, b);
    DivModUnique(a, MsPerHour, r.hours, b);
    DivModUnique(b, MsPerMinute, r.minutes, extra);
  }

  /** `${n} unit${n > 1 ? 's' : ''}` */
  function Count(n: nat, unit: string): (t: string)
    requires unit != [] && unit[|unit| - 1] != 's'
    ensures |t| > |NatToString(n)|
    ensures t[|t| - 1] == 's' <==> n > 1
    ensures t[..|NatToString(n)|] == NatToString(n)
    ensures |t| == |NatToString(n)| + 1 + |unit| + (if n > 1 then 1 else 0)
    ensures t[|NatToString(n)|..|NatToString(n)| + 1 + |unit|] == " " + unit
  {
    NatToString(n) + " " + unit + (if n > 1 then "s" else "")
  }

  /**
   * The remaining-time text: days and hours when at least a day is left,
   * otherwise hours and minutes when at least an hour is left, otherwise
   * minutes alone.
   */
  function RemainingText(r: Remaining): (t: string)
    ensures t != ""
    ensures r.days > 0 ==> t == Count(r.days, "día") + " y " + Count(r.hours, "hora")
    ensures r.days == 0 && r.hours > 0 ==> t == Count(r.hours, "hora") + " y " + Count(r.minutes, "minuto")
    ensures r.days == 0 && r.hours == 0 ==> t == Count(r.minutes, "minuto")
  {
    if r.days > 0 then Count(r.days, "día") + " y " + Count(r.hours, "hora")
    else if r.hours > 0 then Count(r.hours, "hora") + " y " + Count(r.minutes, "minuto")
    else Count(r.minutes, "minuto")
  }

  /** The record `obtenerTiempoRestante` returns (the localised closing date is not modelled). */
  datatype TimeInfo = TimeInfo(estaAbierto: bool, tiempoRestante: Option<string>)

  /**
   * The closing instant `obtenerTiempoRestante` reads:
   * `FORM_CLOSE_DATE || '2025-11-06T01:00:00-06:00'`. The variable is given
   * as the instant it denotes, `None` when it is unset or empty.
   */
  function ServerCutoff(formCloseDate: Option<int>): (c: int)
    ensures formCloseDate.None? ==> c == FechaCierre
    ensures formCloseDate.Some? ==> c == formCloseDate.value
  {
    if formCloseDate.Some? then formCloseDate.value else FechaCierre
  }

  /**
   * `obtenerTiempoRestante`: open exactly before the server's closing
   * instant; the remaining text is present exactly when open, computed from
   * the split of the difference.
   */
  function ObtenerTiempoRestante(now: int, formCloseDate: Option<int>): (info: TimeInfo)
    ensures info.estaAbierto <==> IsOpen(now, ServerCutoff(formCloseDate))
    ensures info.tiempoRestante.Some? <==> info.estaAbierto
    ensures info.estaAbierto ==>
              info.tiempoRestante == Some(RemainingText(SplitRemaining(ServerCutoff(formCloseDate) - now)))
  {
    var fechaCierre := ServerCutoff(formCloseDate);
    var estaAbierto := now < fechaCierre;
    var texto := if estaAbierto then Some(RemainingText(SplitRemaining(fechaCierre - now))) else None;
    TimeInfo(estaAbierto, if texto.Some? && texto.value != "" then texto else None)
  }

  /** The client-side availability state of `useFormAvailability`. */
  datatype Availability = Availability(isOpen: bool, timeRemaining: string)

  const InitialAvailability := Availability(true, "")

  /**
   * One run of `checkAvailability`, whose closing instant is the literal
   * `FechaCierre`: the open flag is recomputed; the text is recomputed only
   * while open and otherwise keeps its previous value. While open it shows
   * what the server reports when `FORM_CLOSE_DATE` is unset.
   */
  function CheckAvailability(s: Availability, now: int): (s': Availability)
    ensures s'.isOpen <==> IsOpen(now, FechaCierre)
    ensures !s'.isOpen ==> s'.timeRemaining == s.timeRemaining
    ensures s'.isOpen ==> ObtenerTiempoRestante(now, None).tiempoRestante == Some(s'.timeRemaining)
  {
    var closingDate := FechaCierre;
    var isFormOpen := now < closingDate;
    if isFormOpen then
      var diff := closingDate - now;
      var days := diff / MsPerDay;
      var hours := (diff % MsPerDay) / MsPerHour;
      var minutes := (diff % MsPerHour) / MsPerMinute;
      Availability(true, RemainingText(Remaining(days, hours, minutes)))
    else
      s.(isOpen := false)
  }

  /**
   * The page and the server agree on whether the form is open at every
   * instant exactly when `FORM_CLOSE_DATE` is unset or names the configured
   * closing instant; a later override keeps the server's query open after
   * the page and the gate have closed.
   */
  lemma ServerAgreesWithPageIff(s: Availability, formCloseDate: Option<int>)
    ensures (forall now :: CheckAvailability(s, now).isOpen == ObtenerTiempoRestante(now, formCloseDate).estaAbierto)
            <==> ServerCutoff(formCloseDate) == FechaCierre
  {
    var c := ServerCutoff(formCloseDate);
    if c < FechaCierre {
      assert CheckAvailability(s, c).isOpen != ObtenerTiempoRestante(c, formCloseDate).estaAbierto;
    } else if c > FechaCierre {
      assert CheckAvailability(s, FechaCierre).isOpen != ObtenerTiempoRestante(FechaCierre, formCloseDate).estaAbierto;
    }
  }
}
