/** The reminder batch of modules/core.py: one WhatsApp reminder per booking
    of tomorrow, each row's failure isolated from the others, summarised in
    counters and a per-row detail list. */
module Reminders {
  import opened Common
  import opened Text

  /** A row of tomorrow's bookings joined with their patient. */
  datatype ReminderRow = ReminderRow(idCita: int, nombre: Option<string>, telefono: Option<string>, fecha: Date, hora: Time)

  /** What the messaging service answers to one send. */
  datatype SendReply = Delivered | Failed(error: string)

  /** One entry of `detalles`. */
  datatype Detail = Detail(idCita: int, nombre: string, telefono: string, toE164: string,
                           fecha: Date, hora: Time, ok: bool, error: string)

  /** The returned summary `{total, enviados, fallidos, detalles}`. */
  datatype Summary = Summary(total: nat, enviados: nat, fallidos: nat, detalles: seq<Detail>)

  const InvalidPhone: string := "Teléfono inválido/no E.164"

  /** `(value or "").strip()`. */
  function StrippedOrEmpty(v: Option<string>): string
  {
    Strip(if v.Some? then v.value else "")
  }

  /** The recipient of a row, if its phone normalises to E.164. */
  function Recipient(r: ReminderRow): Option<string>
  {
    ToE164Mx(StrippedOrEmpty(r.telefono))
  }

  /** The entry as first built for a row, before any send: name and phone
      stripped, `to_e164` the recipient or "" when there is none. */
  function Entry(r: ReminderRow): (e: Detail)
    ensures e.idCita == r.idCita && e.nombre == StrippedOrEmpty(r.nombre) && e.telefono == StrippedOrEmpty(r.telefono)
    ensures e.fecha == r.fecha && e.hora == r.hora && !e.ok && e.error == ""
    ensures e.toE164 == "" <==> Recipient(r).None?
    ensures Recipient(r).Some? ==> e.toE164 == Recipient(r).value
  {
    var to := Recipient(r);
    Detail(r.idCita, StrippedOrEmpty(r.nombre), StrippedOrEmpty(r.telefono),
           if to.Some? then to.value else "", r.fecha, r.hora, false, "")
  }

  function Entries(rows: seq<ReminderRow>): (es: seq<Detail>)
    ensures |es| == |rows| && forall i :: 0 <= i < |rows| ==> es[i] == Entry(rows[i])
  {
    seq(|rows|, i requires 0 <= i < |rows| => Entry(rows[i]))
  }

  /** An entry with a recipient. */
  predicate Sendable(e: Detail)
  {
    e.toE164 != ""
  }

  /** The entry once its row is handled, given what the service would answer. */
  function Settle(e: Detail, reply: SendReply, dryRun: bool): (d: Detail)
    ensures d.(ok := e.ok, error := e.error) == e
    ensures !Sendable(e) ==> !d.ok && d.error == InvalidPhone
    ensures Sendable(e) && dryRun ==> d.ok && d.error == e.error
    ensures Sendable(e) && !dryRun ==> (d.ok <==> reply.Delivered?)
    ensures Sendable(e) && !dryRun && reply.Failed? ==> d.error == reply.error
    ensures Sendable(e) && !dryRun && reply.Delivered? ==> d.error == e.error
  {
    if !Sendable(e) then e.(ok := false, error := InvalidPhone)
    else if dryRun || reply.Delivered? then e.(ok := true)
    else e.(ok := false, error := reply.error)
  }

  /** The detail list: one entry per row, in row order. */
  function Details(es: seq<Detail>, replies: seq<SendReply>, dryRun: bool): (ds: seq<Detail>)
    requires |replies| == |es|
    ensures |ds| == |es|
  {
    if es == [] then []
    else
      var n := |es| - 1;
      Details(es[..n], replies[..n], dryRun) + [Settle(es[n], replies[n], dryRun)]
  }

  function CountOk(ds: seq<Detail>): nat
  {
    if ds == [] then 0 else CountOk(ds[..|ds| - 1]) + (if ds[|ds| - 1].ok then 1 else 0)
  }

  function CountFailed(ds: seq<Detail>): nat
  {
    if ds == [] then 0 else CountFailed(ds[..|ds| - 1]) + (if ds[|ds| - 1].ok then 0 else 1)
  }

  function CountSendable(es: seq<Detail>): (n: nat)
    ensures n <= |es|
  {
    if es == [] then 0 else CountSendable(es[..|es| - 1]) + (if Sendable(es[|es| - 1]) then 1 else 0)
  }

  /** The summary the batch returns. */
  function SummaryOf(rows: seq<ReminderRow>, replies: seq<SendReply>, dryRun: bool): Summary
    requires |replies| == |rows|
  {
    var ds := Details(Entries(rows), replies, dryRun);
    Summary(|rows|, CountOk(ds), CountFailed(ds), ds)
  }

  /** The recipients actually sent to, in row order. */
  function Sends(es: seq<Detail>, dryRun: bool): seq<string>
  {
    if es == [] then []
    else
      var n := |es| - 1;
      Sends(es[..n], dryRun) + (if !dryRun && Sendable(es[n]) then [es[n].toE164] else [])
  }

  /** `enviar_recordatorios_manana`: `replies[i]` is what the service answers
      when row `i` is sent (it is consulted only for rows that are sent). */
  method EnviarRecordatoriosManana(rows: seq<ReminderRow>, replies: seq<SendReply>, dryRun: bool) returns (res: Summary, sends: seq<string>)
    requires |replies| == |rows|
    ensures res == SummaryOf(rows, replies, dryRun)
    ensures sends == Sends(Entries(rows), dryRun)
  {
    var total := |rows|;
    var enviados, fallidos, detalles := 0, 0, [];
    sends := [];
    ghost var es := Entries(rows);
    var i := 0;
    assert es[..0] == [] && replies[..0] == [];
    while i < |rows|
      invariant 0 <= i <= |rows|
      invariant detalles == Details(es[..i], replies[..i], dryRun)
      invariant enviados == CountOk(detalles) && fallidos == CountFailed(detalles)
      invariant sends == Sends(es[..i], dryRun)
    {
      var item, sent := HandleRow(rows[i], replies[i], dryRun, es[i]);
      detalles, enviados, fallidos, sends := Step(item, sent, dryRun, es, replies, i, detalles, enviados, fallidos, sends);
      i := i + 1;
    }
    assert es[..i] == es && replies[..i] == replies;
    res := Summary(total, enviados, fallidos, detalles);
  }

  /** The rest of the loop body: the counters, the detail list and the sends
      advanced by the outcome of row `i`. */
  method Step(item: Detail, sent: seq<string>, dryRun: bool, ghost es: seq<Detail>, ghost replies: seq<SendReply>, ghost i: int,
              detalles: seq<Detail>, enviados: nat, fallidos: nat, sends: seq<string>)
    returns (detalles': seq<Detail>, enviados': nat, fallidos': nat, sends': seq<string>)
    requires |replies| == |es| && 0 <= i < |es|
    requires item == Settle(es[i], replies[i], dryRun)
    requires sent == if !dryRun && Sendable(es[i]) then [es[i].toE164] else []
    requires detalles == Details(es[..i], replies[..i], dryRun)
    requires enviados == CountOk(detalles) && fallidos == CountFailed(detalles)
    requires sends == Sends(es[..i], dryRun)
    ensures detalles' == Details(es[..i + 1], replies[..i + 1], dryRun)
    ensures enviados' == CountOk(detalles') && fallidos' == CountFailed(detalles')
    ensures sends' == Sends(es[..i + 1], dryRun)
  {
    enviados', fallidos' := enviados, fallidos;
    if item.ok {
      enviados' := enviados + 1;
    } else {
      fallidos' := fallidos + 1;
    }
    sends' := sends + sent;
    AdvanceOne(es, replies, dryRun, i, item, detalles);
    detalles' := detalles + [item];
  }

  /** One iteration of the batch: the row's entry once handled, and the
      address sent to (none for an invalid phone or in a dry run). */
  method HandleRow(r: ReminderRow, reply: SendReply, dryRun: bool, ghost e: Detail) returns (item: Detail, sent: seq<string>)
    requires e == Entry(r)
    ensures item == Settle(e, reply, dryRun)
    ensures sent == if !dryRun && Sendable(e) then [e.toE164] else []
  {
    item := Entry(r);
    sent := [];
    if item.toE164 == "" {
      item := item.(error := InvalidPhone);
      return;
    }
    var answer := Delivered;
    if !dryRun {
      answer := reply;
      sent := [item.toE164];
    }
    if answer.Delivered? {
      item := item.(ok := true);
    } else {
      item := item.(error := answer.error);
    }
  }

  lemma AdvanceOne(es: seq<Detail>, replies: seq<SendReply>, dryRun: bool, i: int, item: Detail, ds: seq<Detail>)
    requires |replies| == |es| && 0 <= i < |es|
    requires item == Settle(es[i], replies[i], dryRun)
    requires ds == Details(es[..i], replies[..i], dryRun)
    ensures ds + [item] == Details(es[..i + 1], replies[..i + 1], dryRun)
    ensures CountOk(ds + [item]) == CountOk(ds) + (if item.ok then 1 else 0)
    ensures CountFailed(ds + [item]) == CountFailed(ds) + (if item.ok then 0 else 1)
    ensures Sends(es[..i + 1], dryRun) == Sends(es[..i], dryRun) + (if !dryRun && Sendable(es[i]) then [es[i].toE164] else [])
  {
    assert es[..i + 1][..i] == es[..i] && replies[..i + 1][..i] == replies[..i];
    assert (ds + [item])[..|ds|] == ds;
  }

  /** `total == enviados + fallidos`, and one detail per row. */
  lemma SummaryBalanced(rows: seq<ReminderRow>, replies: seq<SendReply>, dryRun: bool)
    requires |replies| == |rows|
    ensures var s := SummaryOf(rows, replies, dryRun);
      s.total == s.enviados + s.fallidos && |s.detalles| == s.total
  {
    CountsSum(Details(Entries(rows), replies, dryRun));
  }

  lemma {:induction false} CountsSum(ds: seq<Detail>)
    ensures CountOk(ds) + CountFailed(ds) == |ds|
  {
    if ds != [] {
      CountsSum(ds[..|ds| - 1]);
    }
  }

  /** The detail list is settled entry by entry: each row's outcome depends on
      that row and its reply only. */
  lemma {:induction false} DetailsAt(es: seq<Detail>, replies: seq<SendReply>, dryRun: bool, i: int)
    requires |replies| == |es| && 0 <= i < |es|
    ensures Details(es, replies, dryRun)[i] == Settle(es[i], replies[i], dryRun)
  {
    var n := |es| - 1;
    if i < n {
      assert es[..n][i] == es[i] && replies[..n][i] == replies[i];
      DetailsAt(es[..n], replies[..n], dryRun, i);
    }
  }

  /** A row whose phone does not normalise is a failure with the invalid-phone
      message, and fewer sends than rows happen. */
  lemma InvalidPhoneFails(rows: seq<ReminderRow>, replies: seq<SendReply>, dryRun: bool, i: int)
    requires |replies| == |rows| && 0 <= i < |rows|
    requires Recipient(rows[i]).None?
    ensures var d := SummaryOf(rows, replies, dryRun).detalles[i];
      !d.ok && d.error == InvalidPhone && d.toE164 == "" && d.idCita == rows[i].idCita
    ensures |Sends(Entries(rows), dryRun)| < |rows|
  {
    var es := Entries(rows);
    DetailsAt(es, replies, dryRun, i);
    SendsCount(es, dryRun);
    SendableBelow(es, i);
  }

  lemma {:induction false} SendableBelow(es: seq<Detail>, i: int)
    requires 0 <= i < |es| && !Sendable(es[i])
    ensures CountSendable(es) < |es|
  {
    var n := |es| - 1;
    if i < n {
      assert es[..n][i] == es[i];
      SendableBelow(es[..n], i);
    }
  }

  /** One send per sendable entry outside a dry run, none in a dry run. */
  lemma {:induction false} SendsCount(es: seq<Detail>, dryRun: bool)
    ensures |Sends(es, dryRun)| == if dryRun then 0 else CountSendable(es)
  {
    if es != [] {
      SendsCount(es[..|es| - 1], dryRun);
    }
  }

  /** Every address sent to is the normalised phone of some row. */
  lemma {:induction false} SendsAreRecipients(es: seq<Detail>, dryRun: bool)
    ensures forall s :: s in Sends(es, dryRun) ==> exists i :: 0 <= i < |es| && Sendable(es[i]) && es[i].toE164 == s
  {
    if es != [] {
      var n := |es| - 1;
      SendsAreRecipients(es[..n], dryRun);
      forall s | s in Sends(es, dryRun) ensures exists i :: 0 <= i < |es| && Sendable(es[i]) && es[i].toE164 == s {
        if s in Sends(es[..n], dryRun) {
          var i :| 0 <= i < n && Sendable(es[..n][i]) && es[..n][i].toE164 == s;
          assert es[..n][i] == es[i];
        } else {
          assert Sendable(es[n]) && es[n].toE164 == s;
        }
      }
    }
  }

  /** In a dry run every sendable row counts as sent, every other one as
      failed, and the service's answers play no part. */
  lemma {:induction false} DryRunCounts(es: seq<Detail>, replies: seq<SendReply>, replies': seq<SendReply>)
    requires |replies| == |es| && |replies'| == |es|
    ensures CountOk(Details(es, replies, true)) == CountSendable(es)
    ensures CountFailed(Details(es, replies, true)) == |es| - CountSendable(es)
    ensures Details(es, replies, true) == Details(es, replies', true)
  {
    if es != [] {
      var n := |es| - 1;
      DryRunCounts(es[..n], replies[..n], replies'[..n]);
      var ds := Details(es, replies, true);
      assert ds[..n] == Details(es[..n], replies[..n], true);
    }
  }
}
