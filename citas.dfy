/** The `citas` table shared by modules/core.py and Home.py (same columns,
    same `UNIQUE (fecha, hora)`), and the queries both run over it. The stores
    that own the table are classes in CoreStore and HomeStore; this module
    states the table's rules on values. */
module Citas {
  import opened Common
  import opened Progression

  /** Why the frequency rule refused a booking: the same-day check comes first. */
  datatype Frequency = SameDay | Within7Days

  /** The outcome of a booking attempt: the source's exceptions become values. */
  datatype Outcome = Ok | IneligibleDate | FrequencyViolation(rule: Frequency) | SlotTaken | UnknownPatient

  /** A booking row: id, date, time, owning patient (nullable) and note. */
  datatype Cita = Cita(id: int, fecha: Date, hora: Time, pacienteId: Option<int>, nota: Option<string>)

  /** `UNIQUE (fecha, hora)`: one booking per slot, system-wide. */
  predicate SlotsUnique(rows: seq<Cita>)
  {
    forall i, j :: 0 <= i < j < |rows| ==> rows[i].fecha != rows[j].fecha || rows[i].hora != rows[j].hora
  }

  /** `id SERIAL PRIMARY KEY`: ids are distinct and below the sequence's next value. */
  predicate IdsBelow(rows: seq<Cita>, next: int)
  {
    && (forall i :: 0 <= i < |rows| ==> rows[i].id < next)
    && (forall i, j :: 0 <= i < j < |rows| ==> rows[i].id != rows[j].id)
  }

  /** Some booking occupies the slot `(fecha, hora)`: the condition under which
      the INSERT raises `UniqueViolation`. */
  predicate SlotBooked(rows: seq<Cita>, fecha: Date, hora: Time)
  {
    exists i :: 0 <= i < |rows| && rows[i].fecha == fecha && rows[i].hora == hora
  }

  /** `slots_ocupados(fecha)`: the times already booked on that date. */
  function Occupied(rows: seq<Cita>, fecha: Date): (occ: set<Time>)
    ensures forall h :: h in occ <==> SlotBooked(rows, fecha, h)
  {
    set i | 0 <= i < |rows| && rows[i].fecha == fecha :: rows[i].hora
  }

  /** The free-slot list `[t for t in slots if t not in ocupados]`. */
  function FreeSlots(slots: seq<Time>, occ: set<Time>): (free: seq<Time>)
    ensures forall t :: t in free <==> t in slots && t !in occ
    ensures |free| <= |slots|
  {
    if slots == [] then []
    else if slots[0] in occ then FreeSlots(slots[1..], occ)
    else [slots[0]] + FreeSlots(slots[1..], occ)
  }

  /** The filter keeps generation order: ascending slots stay ascending, so the
      free list is the free times in the generator's order. */
  lemma {:induction false} FreeSlotsAscending(slots: seq<Time>, occ: set<Time>)
    requires StrictlyAscending(slots)
    ensures StrictlyAscending(FreeSlots(slots, occ))
  {
    if slots != [] {
      var rest := slots[1..];
      assert StrictlyAscending(rest) by {
        forall i, j | 0 <= i < j < |rest| ensures rest[i] < rest[j] {
          assert rest[i] == slots[i + 1] && rest[j] == slots[j + 1];
        }
      }
      FreeSlotsAscending(rest, occ);
      var f := FreeSlots(rest, occ);
      forall t | t in f ensures slots[0] < t {
        var k :| 0 <= k < |rest| && rest[k] == t;
        assert slots[k + 1] == t;
      }
      if slots[0] !in occ {
        var g := [slots[0]] + f;
        forall i, j | 0 <= i < j < |g| ensures g[i] < g[j] {
          assert g[j] == f[j - 1] && g[j] in f;
          if i > 0 {
            assert g[i] == f[i - 1];
          }
        }
      }
    }
  }

  /** Filtering by a larger occupied set is filtering twice. */
  lemma {:induction false} FreeSlotsUnion(slots: seq<Time>, occ: set<Time>, h: Time)
    ensures FreeSlots(slots, occ + {h}) == FreeSlots(FreeSlots(slots, occ), {h})
  {
    if slots != [] {
      FreeSlotsUnion(slots[1..], occ, h);
      if slots[0] !in occ {
        var f := FreeSlots(slots[1..], occ);
        assert ([slots[0]] + f)[1..] == f;
      }
    }
  }

  /** The INSERT of one row under `UNIQUE (fecha, hora)`: refused when the slot
      is taken, appended otherwise. */
  function TryInsert(rows: seq<Cita>, c: Cita): (r: Option<seq<Cita>>)
    ensures r.None? <==> SlotBooked(rows, c.fecha, c.hora)
    ensures SlotsUnique(rows) && r.Some? ==> SlotsUnique(r.value)
  {
    if SlotBooked(rows, c.fecha, c.hora) then None else Some(rows + [c])
  }

  /** Booking a free slot and then asking for the free slots of that day: the
      booked time is gone, and nothing else changed. */
  lemma BookedSlotNotFree(rows: seq<Cita>, c: Cita, slots: seq<Time>)
    requires TryInsert(rows, c).Some?
    ensures var after := TryInsert(rows, c).value;
      && c.hora in Occupied(after, c.fecha)
      && c.hora !in FreeSlots(slots, Occupied(after, c.fecha))
      && FreeSlots(slots, Occupied(after, c.fecha)) == FreeSlots(FreeSlots(slots, Occupied(rows, c.fecha)), {c.hora})
  {
    var after := rows + [c];
    assert after[|rows|] == c;
    forall h ensures h in Occupied(after, c.fecha) <==> h in Occupied(rows, c.fecha) + {c.hora} {
      if SlotBooked(after, c.fecha, h) {
        var i :| 0 <= i < |after| && after[i].fecha == c.fecha && after[i].hora == h;
        if i < |rows| {
          assert rows[i] == after[i];
        }
      }
      if SlotBooked(rows, c.fecha, h) {
        var i :| 0 <= i < |rows| && rows[i].fecha == c.fecha && rows[i].hora == h;
        assert after[i] == rows[i];
      }
    }
    assert Occupied(after, c.fecha) == Occupied(rows, c.fecha) + {c.hora};
    FreeSlotsUnion(slots, Occupied(rows, c.fecha), c.hora);
  }

  /** N attempts, one after another, at inserting a row: the resulting table
      and how many of them succeeded. */
  function InsertAll(rows: seq<Cita>, cs: seq<Cita>): (r: (seq<Cita>, nat))
    ensures SlotsUnique(rows) ==> SlotsUnique(r.0)
    ensures r.1 <= |cs|
    decreases |cs|
  {
    if cs == [] then (rows, 0)
    else
      match TryInsert(rows, cs[0])
      case None =>
        InsertAll(rows, cs[1..])
      case Some(next) =>
        var r := InsertAll(next, cs[1..]);
        (r.0, r.1 + 1)
  }

  /** At most one booking survives per slot: of N attempts at the same
      `(fecha, hora)`, exactly one succeeds when the slot was free, none when it
      was taken, and every other attempt gets the "slot taken" outcome. */
  lemma {:induction false} SameSlotSingleWinner(rows: seq<Cita>, cs: seq<Cita>, fecha: Date, hora: Time)
    requires forall i :: 0 <= i < |cs| ==> cs[i].fecha == fecha && cs[i].hora == hora
    ensures InsertAll(rows, cs).1 == if cs == [] || SlotBooked(rows, fecha, hora) then 0 else 1
    decreases |cs|
  {
    if cs != [] {
      match TryInsert(rows, cs[0])
      case None =>
        SameSlotSingleWinner(rows, cs[1..], fecha, hora);
      case Some(next) =>
        assert next[|rows|] == cs[0];
        assert SlotBooked(next, fecha, hora);
        SameSlotSingleWinner(next, cs[1..], fecha, hora);
    }
  }

  /** `ya_tiene_cita_en_dia`: the patient already holds a booking on that date. */
  predicate HasCitaOnDay(rows: seq<Cita>, pid: int, fecha: Date)
  {
    exists i :: 0 <= i < |rows| && rows[i].pacienteId == Some(pid) && rows[i].fecha == fecha
  }

  /** `ya_tiene_cita_en_ventana_7dias`: the patient holds a booking between six
      days before and six days after the date, both ends included. */
  predicate HasCitaInWindow(rows: seq<Cita>, pid: int, fecha: Date)
  {
    exists i :: 0 <= i < |rows| && rows[i].pacienteId == Some(pid) && fecha - 6 <= rows[i].fecha <= fecha + 6
  }

  /** `UPDATE citas SET paciente_id=%s, nota=%s WHERE id=%s`: only those two
      columns of the row with that id change. */
  function Updated(rows: seq<Cita>, id: int, pid: Option<int>, nota: Option<string>): (r: seq<Cita>)
    ensures |r| == |rows|
    ensures forall i :: 0 <= i < |rows| ==>
              && r[i].id == rows[i].id && r[i].fecha == rows[i].fecha && r[i].hora == rows[i].hora
              && (rows[i].id != id ==> r[i] == rows[i])
              && (rows[i].id == id ==> r[i].pacienteId == pid && r[i].nota == nota)
    ensures SlotsUnique(rows) ==> SlotsUnique(r)
  {
    seq(|rows|, i requires 0 <= i < |rows| =>
      if rows[i].id == id then rows[i].(pacienteId := pid, nota := nota) else rows[i])
  }

  /** `DELETE FROM citas WHERE id=%s`: every row with that id goes, the others
      stay in order. */
  function Removed(rows: seq<Cita>, id: int): (r: seq<Cita>)
    ensures forall c :: c in r <==> c in rows && c.id != id
    ensures |r| <= |rows|
    ensures (forall i :: 0 <= i < |rows| ==> rows[i].id != id) ==> r == rows
  {
    if rows == [] then []
    else if rows[0].id == id then Removed(rows[1..], id)
    else [rows[0]] + Removed(rows[1..], id)
  }

  /** The row count DELETE reports: one when the id was present, zero when it
      was not (ids are unique). */
  lemma {:induction false} RemovedCount(rows: seq<Cita>, id: int, next: int)
    requires IdsBelow(rows, next)
    ensures |rows| - |Removed(rows, id)| == if exists i :: 0 <= i < |rows| && rows[i].id == id then 1 else 0
  {
    if rows != [] {
      var rest := rows[1..];
      assert IdsBelow(rest, next) by {
        forall i, j | 0 <= i < j < |rest| ensures rest[i].id != rest[j].id {
          assert rest[i] == rows[i + 1] && rest[j] == rows[j + 1];
        }
      }
      RemovedCount(rest, id, next);
      if rows[0].id == id {
        assert forall i :: 0 <= i < |rest| ==> rest[i].id != id by {
          forall i | 0 <= i < |rest| ensures rest[i].id != id {
            assert rest[i] == rows[i + 1];
          }
        }
      } else {
        if exists i :: 0 <= i < |rows| && rows[i].id == id {
          var i :| 0 <= i < |rows| && rows[i].id == id;
          assert rest[i - 1] == rows[i];
        }
        if exists i :: 0 <= i < |rest| && rest[i].id == id {
          var i :| 0 <= i < |rest| && rest[i].id == id;
          assert rows[i + 1] == rest[i];
        }
      }
    }
  }

  /** DELETE keeps the table's key invariants. */
  lemma {:induction false} RemovedKeeps(rows: seq<Cita>, id: int, next: int)
    requires SlotsUnique(rows) && IdsBelow(rows, next)
    ensures SlotsUnique(Removed(rows, id)) && IdsBelow(Removed(rows, id), next)
  {
    if rows != [] {
      TailKeeps(rows, next);
      RemovedKeeps(rows[1..], id, next);
      if rows[0].id != id {
        ConsKeeps(rows[0], Removed(rows[1..], id), next);
      }
    }
  }

  lemma TailKeeps(rows: seq<Cita>, next: int)
    requires rows != [] && SlotsUnique(rows) && IdsBelow(rows, next)
    ensures SlotsUnique(rows[1..]) && IdsBelow(rows[1..], next)
    ensures forall c :: c in rows[1..] ==> c.id != rows[0].id && (c.fecha != rows[0].fecha || c.hora != rows[0].hora)
  {
    var rest := rows[1..];
    forall i | 0 <= i < |rest| ensures rest[i] == rows[i + 1] {
    }
  }

  lemma ConsKeeps(x: Cita, r: seq<Cita>, next: int)
    requires SlotsUnique(r) && IdsBelow(r, next) && x.id < next
    requires forall c :: c in r ==> c.id != x.id && (c.fecha != x.fecha || c.hora != x.hora)
    ensures SlotsUnique([x] + r) && IdsBelow([x] + r, next)
  {
    var g := [x] + r;
    forall j | 0 < j < |g| ensures g[j] == r[j - 1] && g[j] in r {
    }
  }

  /** A booking of the patient that has not started yet (after today, or today
      from the current time on). */
  predicate Upcoming(c: Cita, pid: int, today: Date, now: Time)
  {
    c.pacienteId == Some(pid) && (c.fecha > today || (c.fecha == today && c.hora >= now))
  }

  /** `ORDER BY fecha, hora`. */
  predicate NotLater(a: Cita, b: Cita)
  {
    a.fecha < b.fecha || (a.fecha == b.fecha && a.hora <= b.hora)
  }

  /** `proxima_cita_paciente`: the patient's earliest upcoming booking, if any. */
  function ProximaCita(rows: seq<Cita>, pid: int, today: Date, now: Time): (r: Option<Cita>)
    ensures r.Some? ==> r.value in rows && Upcoming(r.value, pid, today, now)
    ensures r.Some? ==> forall c :: c in rows && Upcoming(c, pid, today, now) ==> NotLater(r.value, c)
    ensures r.None? <==> forall c :: c in rows ==> !Upcoming(c, pid, today, now)
  {
    if rows == [] then None
    else
      var rest := ProximaCita(rows[1..], pid, today, now);
      if Upcoming(rows[0], pid, today, now) && (rest.None? || NotLater(rows[0], rest.value)) then
        Some(rows[0])
      else
        rest
  }
}
