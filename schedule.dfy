/** The weekly schedule template and the slot generator of modules/core.py. */
module Schedule {
  import opened Common
  import opened Progression

  /** A working interval `[ini, fin)` of one day. */
  datatype Block = Block(ini: Time, fin: Time)

  /** The intervals are each non-empty, inside one day, in ascending order and
      non-overlapping. */
  predicate BlocksAscending(bs: seq<Block>)
  {
    && (forall i :: 0 <= i < |bs| ==> 0 <= bs[i].ini < bs[i].fin <= Hm(24, 0))
    && (forall i, j :: 0 <= i < j < |bs| ==> bs[i].fin <= bs[j].ini)
  }

  /** `_bloques_del_dia`: Monday to Friday three windows, Saturday one long
      morning, Sunday closed. */
  function BlocksOfDay(fecha: Date): (bs: seq<Block>)
    ensures BlocksAscending(bs)
    ensures Weekday(fecha) <= 4 ==> |bs| == 3
    ensures Weekday(fecha) == 5 ==> |bs| == 1
    ensures Weekday(fecha) == 6 <==> bs == []
  {
    var wd := Weekday(fecha);
    if 0 <= wd <= 4 then
      [Block(Hm(10, 0), Hm(12, 0)), Block(Hm(14, 0), Hm(16, 30)), Block(Hm(18, 30), Hm(19, 0))]
    else if wd == 5 then
      [Block(Hm(8, 0), Hm(14, 0))]
    else
      []
  }

  /** The slots of one block: `while t < fin` is `t <= fin - 1` on whole minutes. */
  function BlockSlots(b: Block): seq<Time>
  {
    Steps(b.ini, b.fin - 1, PasoMin)
  }

  /** The slots of a list of blocks, block after block. */
  function SlotsOfBlocks(bs: seq<Block>): seq<Time>
  {
    if bs == [] then [] else BlockSlots(bs[0]) + SlotsOfBlocks(bs[1..])
  }

  /** What `generar_slots(fecha)` returns. */
  function DaySlots(fecha: Date): seq<Time>
  {
    SlotsOfBlocks(BlocksOfDay(fecha))
  }

  /** The time `t` lies in some block and is a whole number of steps after that
      block's start. */
  ghost predicate InSomeBlock(bs: seq<Block>, t: Time)
  {
    exists i :: 0 <= i < |bs| && bs[i].ini <= t < bs[i].fin && (t - bs[i].ini) % PasoMin == 0
  }

  /** The slots of one block lie inside it, on its 30-minute grid. */
  lemma BlockSlotsOnGrid(b: Block)
    ensures forall t :: t in BlockSlots(b) ==> b.ini <= t < b.fin && (t - b.ini) % PasoMin == 0
  {
    StepsOnGrid(b.ini, b.fin - 1);
  }

  /** Every generated slot lies in a block, on the block's 30-minute grid, and
      the slots of ascending blocks come out strictly ascending. */
  lemma {:induction false} SlotsOfBlocksSound(bs: seq<Block>)
    requires BlocksAscending(bs)
    ensures StrictlyAscending(SlotsOfBlocks(bs))
    ensures forall t :: t in SlotsOfBlocks(bs) ==> InSomeBlock(bs, t)
    ensures forall t :: t in SlotsOfBlocks(bs) ==> bs[0].ini <= t
  {
    if bs != [] {
      var b, rest := bs[0], bs[1..];
      SlotsOfBlocksSound(rest);
      StepsAscending(b.ini, b.fin - 1, PasoMin);
      BlockSlotsOnGrid(b);
      var left, right := BlockSlots(b), SlotsOfBlocks(rest);
      assert SlotsOfBlocks(bs) == left + right;
      forall t | t in left ensures InSomeBlock(bs, t) {
      }
      forall t | t in right ensures InSomeBlock(bs, t) && b.fin <= t {
        var i :| 0 <= i < |rest| && rest[i].ini <= t < rest[i].fin && (t - rest[i].ini) % PasoMin == 0;
        assert bs[i + 1] == rest[i];
        assert b.fin <= rest[0].ini;
      }
      AppendAscending(left, right);
    }
  }

  /** Monday to Friday: exactly the ten slots 10:00, 10:30, 11:00, 11:30,
      14:00, 14:30, 15:00, 15:30, 16:00 and 18:30. */
  lemma WeekdaySlots(fecha: Date)
    requires Weekday(fecha) <= 4
    ensures DaySlots(fecha) == [Hm(10, 0), Hm(10, 30), Hm(11, 0), Hm(11, 30),
                                Hm(14, 0), Hm(14, 30), Hm(15, 0), Hm(15, 30), Hm(16, 0),
                                Hm(18, 30)]
    ensures |DaySlots(fecha)| == 10
  {
    var bs := BlocksOfDay(fecha);
    assert bs == [Block(600, 720), Block(840, 990), Block(1110, 1140)];
    assert Steps(600, 719, 30) == [600, 630, 660, 690];
    assert Steps(840, 989, 30) == [840, 870, 900, 930, 960];
    assert Steps(1110, 1139, 30) == [1110];
    var b1, b2 := bs[1..], bs[1..][1..];
    assert b1 == [Block(840, 990), Block(1110, 1140)] && b2 == [Block(1110, 1140)] && b2[1..] == [];
    assert SlotsOfBlocks(b2) == [1110];
    assert SlotsOfBlocks(b1) == [840, 870, 900, 930, 960] + [1110];
    assert SlotsOfBlocks(bs) == [600, 630, 660, 690] + SlotsOfBlocks(b1);
  }

  /** Saturday: the twelve slots 08:00, 08:30, ..., 13:30. */
  lemma SaturdaySlots(fecha: Date)
    requires Weekday(fecha) == 5
    ensures DaySlots(fecha) == [Hm(8, 0), Hm(8, 30), Hm(9, 0), Hm(9, 30), Hm(10, 0), Hm(10, 30),
                                Hm(11, 0), Hm(11, 30), Hm(12, 0), Hm(12, 30), Hm(13, 0), Hm(13, 30)]
    ensures |DaySlots(fecha)| == 12
  {
    var bs := BlocksOfDay(fecha);
    assert bs == [Block(480, 840)] && bs[1..] == [];
    assert Steps(480, 839, 30) == [480, 510, 540, 570, 600, 630, 660, 690, 720, 750, 780, 810];
    assert SlotsOfBlocks(bs) == BlockSlots(bs[0]) + SlotsOfBlocks(bs[1..]);
  }

  /** Sunday: no slots. */
  lemma SundaySlots(fecha: Date)
    requires Weekday(fecha) == 6
    ensures DaySlots(fecha) == []
  {
  }

  /** `generar_slots`: the slots of the day's blocks, in order. */
  method GenerarSlots(fecha: Date) returns (slots: seq<Time>)
    ensures slots == DaySlots(fecha)
    ensures StrictlyAscending(slots)
    ensures forall t :: t in slots ==> InSomeBlock(BlocksOfDay(fecha), t)
  {
    var blocks := BlocksOfDay(fecha);
    slots := WalkBlocks(blocks);
    SlotsOfBlocksSound(blocks);
  }

  /** The loop of `generar_slots`: each block walked in PasoMin steps while the
      current time is before the block's end. */
  method WalkBlocks(blocks: seq<Block>) returns (slots: seq<Time>)
    ensures slots == SlotsOfBlocks(blocks)
  {
    slots := [];
    var i := 0;
    while i < |blocks|
      invariant 0 <= i <= |blocks|
      invariant slots + SlotsOfBlocks(blocks[i..]) == SlotsOfBlocks(blocks)
    {
      var ini, fin := blocks[i].ini, blocks[i].fin;
      ghost var rest := SlotsOfBlocks(blocks[i + 1..]);
      assert SlotsOfBlocks(blocks[i..]) == BlockSlots(blocks[i]) + rest by {
        assert blocks[i..][1..] == blocks[i + 1..];
      }
      var t := ini;
      while t < fin
        invariant slots + Steps(t, fin - 1, PasoMin) + rest == SlotsOfBlocks(blocks)
        decreases fin - t
      {
        StepsPeel(slots, t, fin - 1, PasoMin);
        slots := slots + [t];
        t := t + PasoMin;
      }
      i := i + 1;
    }
  }
}
