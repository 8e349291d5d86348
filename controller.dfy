/** The SSD1306 controller as the driver relies on it: a command decoder that groups the
    command bytes it receives into an opcode and that opcode's arguments and then sets the
    register the opcode names, and a display RAM that takes the data bytes at an address
    pointer which the addressing mode moves on. It is the reference against which the
    driver's command sequences (module Display) are read: what state each sequence leaves
    the panel in. Opcodes and argument counts follow the command table of the SSD1306
    datasheet; only registers the driver sets are kept. */
module Controller {
  import opened Profiles
  import opened Transport
  import opened FrameBuffer

  /** How many argument bytes follow an opcode. */
  function Arity(op: Byte): nat
  {
    if op == SETCONTRAST || op == CHARGEPUMP || op == MEMORYMODE || op == SETMULTIPLEX
       || op == SETDISPLAYOFFSET || op == SETDISPLAYCLOCKDIV || op == SETPRECHARGE
       || op == SETCOMPINS || op == SETVCOMDETECT then 1
    else if op == COLUMNADDR || op == PAGEADDR || op == SET_VERTICAL_SCROLL_AREA then 2
    else if op == RIGHT_HORIZONTAL_SCROLL || op == LEFT_HORIZONTAL_SCROLL then 6
    else if op == VERTICAL_AND_RIGHT_HORIZONTAL_SCROLL || op == VERTICAL_AND_LEFT_HORIZONTAL_SCROLL then 5
    else 0
  }

  /** A scroll set up by one of the four scroll-setup commands: the opcode (direction and
      kind), first page, frame interval, last page and, for the diagonal kinds, the
      vertical offset per step. */
  datatype Scroll = Scroll(op: Byte, startPage: Byte, interval: Byte, endPage: Byte, verticalOffset: Byte)

  /** What the panel shows: on or asleep, normal or inverted, following the RAM or all
      lit, and its contrast. */
  datatype Look = Look(on: bool, inverted: bool, entireOn: bool, contrast: Byte)

  /** How the panel is driven: clock, multiplex ratio, offsets, charge pump, segment and
      COM scan order, COM pin configuration, precharge period and VCOMH level. */
  datatype Drive = Drive(
    clockDiv: Byte, multiplex: Byte, displayOffset: Byte, startLine: Byte, chargePump: Byte,
    segmentRemap: bool, comScanDescending: bool, comPins: Byte, precharge: Byte, vcomDetect: Byte)

  /** The scroll: running or not, its set-up and the vertical scroll area. */
  datatype Scrolling = Scrolling(active: bool, setup: Scroll, area: (Byte, Byte))

  /** The addressing mode, the column and page window and the address pointer. */
  datatype Addressing = Addressing(
    mode: Byte, colStart: int, colEnd: int, pageStart: int, pageEnd: int, col: int, page: int)

  /** The controller as the commands and data received so far have left it. `pending` is
      the opcode and arguments of a command still being received; `ram` maps (page, column)
      to the display byte there. */
  datatype Panel = Panel(
    pending: seq<Byte>, look: Look, drive: Drive, scrolling: Scrolling, addr: Addressing,
    ram: map<(int, int), Byte>)

  /** The addressing modes of MEMORYMODE's argument. */
  const HORIZONTAL: Byte := 0x00
  const VERTICAL: Byte := 0x01

  /** A command that changes what the panel shows. */
  function SetLook(k: Look, op: Byte, args: seq<Byte>): Look
    requires |args| == Arity(op)
  {
    Look(
      on := if op == DISPLAYOFF || op == DISPLAYON then op == DISPLAYON else k.on,
      inverted := if op == NORMALDISPLAY || op == INVERTDISPLAY then op == INVERTDISPLAY else k.inverted,
      entireOn := if op == DISPLAYALLON_RESUME || op == DISPLAYALLON then op == DISPLAYALLON else k.entireOn,
      contrast := if op == SETCONTRAST then args[0] else k.contrast)
  }

  /** A command that changes how the panel is driven: each register takes the argument of
      the opcode that names it and keeps its value under any other opcode. */
  function SetDrive(d: Drive, op: Byte, args: seq<Byte>): Drive
    requires |args| == Arity(op)
  {
    Drive(
      clockDiv := if op == SETDISPLAYCLOCKDIV then args[0] else d.clockDiv,
      multiplex := if op == SETMULTIPLEX then args[0] else d.multiplex,
      displayOffset := if op == SETDISPLAYOFFSET then args[0] else d.displayOffset,
      startLine := if SETSTARTLINE <= op < 0x80 then op - SETSTARTLINE else d.startLine,
      chargePump := if op == CHARGEPUMP then args[0] else d.chargePump,
      segmentRemap := if op == SEGREMAP || op == SEGREMAP_COL127 then op == SEGREMAP_COL127 else d.segmentRemap,
      comScanDescending := if op == COMSCANINC || op == COMSCANDEC then op == COMSCANDEC else d.comScanDescending,
      comPins := if op == SETCOMPINS then args[0] else d.comPins,
      precharge := if op == SETPRECHARGE then args[0] else d.precharge,
      vcomDetect := if op == SETVCOMDETECT then args[0] else d.vcomDetect)
  }

  /** A scroll command. The two horizontal set-ups carry a dummy byte, the first page,
      the frame interval, the last page and two more dummy bytes; the two diagonal ones
      the same with the vertical offset last. */
  function SetScrolling(c: Scrolling, op: Byte, args: seq<Byte>): Scrolling
    requires |args| == Arity(op)
  {
    Scrolling(
      active := if op == ACTIVATE_SCROLL || op == DEACTIVATE_SCROLL then op == ACTIVATE_SCROLL else c.active,
      setup :=
        if op == RIGHT_HORIZONTAL_SCROLL || op == LEFT_HORIZONTAL_SCROLL then
          Scroll(op, args[1], args[2], args[3], 0)
        else if op == VERTICAL_AND_RIGHT_HORIZONTAL_SCROLL || op == VERTICAL_AND_LEFT_HORIZONTAL_SCROLL then
          Scroll(op, args[1], args[2], args[3], args[4])
        else c.setup,
      area := if op == SET_VERTICAL_SCROLL_AREA then (args[0], args[1]) else c.area)
  }

  /** An addressing command; setting a window also moves the pointer to its start. */
  function SetAddressing(a: Addressing, op: Byte, args: seq<Byte>): Addressing
    requires |args| == Arity(op)
  {
    Addressing(
      mode := if op == MEMORYMODE then args[0] else a.mode,
      colStart := if op == COLUMNADDR then args[0] as int else a.colStart,
      colEnd := if op == COLUMNADDR then args[1] as int else a.colEnd,
      pageStart := if op == PAGEADDR then args[0] as int else a.pageStart,
      pageEnd := if op == PAGEADDR then args[1] as int else a.pageEnd,
      col := if op == COLUMNADDR then args[0] as int else a.col,
      page := if op == PAGEADDR then args[0] as int else a.page)
  }

  /** A whole command: the register its opcode names takes its arguments. */
  function Execute(s: Panel, op: Byte, args: seq<Byte>): (r: Panel)
    requires |args| == Arity(op)
    ensures r.pending == s.pending && r.ram == s.ram
  {
    Panel(s.pending, SetLook(s.look, op, args), SetDrive(s.drive, op, args),
          SetScrolling(s.scrolling, op, args), SetAddressing(s.addr, op, args), s.ram)
  }

  /** A command byte: it joins the pending command, which is executed once its opcode has
      all its arguments. */
  function CommandByte(s: Panel, b: Byte): (r: Panel)
    ensures r.ram == s.ram
  {
    var cmd := s.pending + [b];
    if |cmd| > Arity(cmd[0]) then Execute(s.(pending := []), cmd[0], cmd[1..Arity(cmd[0]) + 1])
    else s.(pending := cmd)
  }

  /** The pointer after a data byte: it moves on within the column and page window, column
      first in horizontal mode and page first in vertical mode; in page mode only the
      column moves, wrapping inside the window. */
  function Advance(a: Addressing): Addressing
  {
    if a.mode == HORIZONTAL then
      if a.col < a.colEnd then a.(col := a.col + 1)
      else a.(col := a.colStart, page := if a.page < a.pageEnd then a.page + 1 else a.pageStart)
    else if a.mode == VERTICAL then
      if a.page < a.pageEnd then a.(page := a.page + 1)
      else a.(page := a.pageStart, col := if a.col < a.colEnd then a.col + 1 else a.colStart)
    else
      a.(col := if a.col < a.colEnd then a.col + 1 else a.colStart)
  }

  /** A data byte is stored at the address pointer, which then moves on. */
  function DataByte(s: Panel, b: Byte): (r: Panel)
    ensures r.pending == s.pending
  {
    s.(ram := s.ram[(s.addr.page, s.addr.col) := b], addr := Advance(s.addr))
  }

  function Receive(s: Panel, f: Frame): Panel
  {
    match f
    case Cmd(b) => CommandByte(s, b)
    case Data(b) => DataByte(s, b)
  }

  /** The frames received in order. */
  function ReceiveAll(s: Panel, fs: seq<Frame>): Panel
  {
    if |fs| == 0 then s else Receive(ReceiveAll(s, fs[..|fs| - 1]), fs[|fs| - 1])
  }

  // ---------------------------------------------------------------------------
  // Properties of the decoder

  lemma CmdsSnoc(cs: seq<Byte>, c: Byte)
    ensures Cmds(cs + [c]) == Cmds(cs) + [Cmd(c)]
  {
    assert (cs + [c])[..|cs|] == cs;
  }

  lemma CmdsConcat(a: seq<Byte>, b: seq<Byte>)
    ensures Cmds(a + b) == Cmds(a) + Cmds(b)
  {
    var whole, parts := Cmds(a + b), Cmds(a) + Cmds(b);
    forall i | 0 <= i < |whole|
      ensures whole[i] == parts[i]
    {
      if i < |a| { } else { }
    }
  }

  lemma {:induction false} ReceiveAllConcat(s: Panel, a: seq<Frame>, b: seq<Frame>)
    ensures ReceiveAll(s, a + b) == ReceiveAll(ReceiveAll(s, a), b)
    decreases |b|
  {
    if |b| == 0 {
      assert a + b == a;
    } else {
      ReceiveAllConcat(s, a, b[..|b| - 1]);
      assert (a + b)[..|a + b| - 1] == a + b[..|b| - 1];
    }
  }

  lemma ReceiveAllSnoc(s: Panel, fs: seq<Frame>, f: Frame)
    ensures ReceiveAll(s, fs + [f]) == Receive(ReceiveAll(s, fs), f)
  {
    assert (fs + [f])[..|fs|] == fs;
  }

  /** One more command byte, from a decoder whose command is still short of arguments. */
  lemma CommandByteWaits(s: Panel, b: Byte)
    requires |s.pending + [b]| <= Arity((s.pending + [b])[0])
    ensures CommandByte(s, b) == s.(pending := s.pending + [b])
  {
  }

  /** The last argument byte of a command. */
  lemma CommandByteRuns(s: Panel, b: Byte)
    requires |s.pending + [b]| == Arity((s.pending + [b])[0]) + 1
    ensures var cmd := s.pending + [b];
      CommandByte(s, b) == Execute(s.(pending := []), cmd[0], cmd[1..])
  {
  }

  /** A command received byte by byte, from a decoder between commands, is executed once
      and leaves the decoder between commands again. */
  lemma ReceiveCommand(s: Panel, op: Byte, args: seq<Byte>)
    requires s.pending == [] && |args| == Arity(op)
    ensures ReceiveAll(s, Cmds([op] + args)) == Execute(s, op, args)
  {
    var n := |args|;
    var cmd := [op] + args;
    assert cmd == cmd[..n] + [cmd[n]];
    CmdsSnoc(cmd[..n], cmd[n]);
    ReceiveAllSnoc(s, Cmds(cmd[..n]), Cmd(cmd[n]));
    if n == 0 {
      assert cmd[..n] == [];
    } else {
      assert cmd[..n][0] == op;
      ReceivePrefix(s, cmd[..n]);
    }
    var t := ReceiveAll(s, Cmds(cmd[..n]));
    assert t == s.(pending := cmd[..n]);
    assert t.pending + [cmd[n]] == cmd;
    CommandByteRuns(t, cmd[n]);
    assert t.(pending := []) == s;
  }

  /** While its arguments arrive, the command waits in `pending`. */
  lemma {:induction false} ReceivePrefix(s: Panel, cmd: seq<Byte>)
    requires s.pending == [] && 0 < |cmd| <= Arity(cmd[0])
    ensures ReceiveAll(s, Cmds(cmd)) == s.(pending := cmd)
    decreases |cmd|
  {
    var init, last := cmd[..|cmd| - 1], cmd[|cmd| - 1];
    assert cmd == init + [last];
    CmdsSnoc(init, last);
    ReceiveAllSnoc(s, Cmds(init), Cmd(last));
    if |init| > 0 {
      assert init[0] == cmd[0];
      ReceivePrefix(s, init);
    } else {
      assert s.(pending := init) == s;
    }
    CommandByteWaits(s.(pending := init), last);
  }

  // What single commands do, register by register.

  lemma ExecuteContrast(s: Panel, c: Byte)
    ensures Execute(s, SETCONTRAST, [c]) == s.(look := s.look.(contrast := c))
  {
  }

  lemma ExecuteInvert(s: Panel, i: bool)
    ensures Execute(s, if i then INVERTDISPLAY else NORMALDISPLAY, [])
         == s.(look := s.look.(inverted := i))
  {
  }

  lemma ExecuteScrollSwitch(s: Panel, on: bool)
    ensures Execute(s, if on then ACTIVATE_SCROLL else DEACTIVATE_SCROLL, [])
         == s.(scrolling := s.scrolling.(active := on))
  {
  }

  /** A horizontal scroll set up, then started: the bytes around the first page, the
      interval and the last page are dummies. */
  lemma StartHorizontalScroll(s: Panel, op: Byte, d0: Byte, start: Byte, interval: Byte, stop: Byte,
                              d1: Byte, d2: Byte)
    requires op == RIGHT_HORIZONTAL_SCROLL || op == LEFT_HORIZONTAL_SCROLL
    ensures Execute(Execute(s, op, [d0, start, interval, stop, d1, d2]), ACTIVATE_SCROLL, [])
         == s.(scrolling := s.scrolling.(active := true, setup := Scroll(op, start, interval, stop, 0)))
  {
  }

  /** A vertical scroll area, then a diagonal scroll set up and started. */
  lemma StartDiagonalScroll(s: Panel, top: Byte, rows: Byte, op: Byte, d0: Byte, start: Byte,
                            interval: Byte, stop: Byte, offset: Byte)
    requires op == VERTICAL_AND_RIGHT_HORIZONTAL_SCROLL || op == VERTICAL_AND_LEFT_HORIZONTAL_SCROLL
    ensures Execute(Execute(Execute(s, SET_VERTICAL_SCROLL_AREA, [top, rows]),
                            op, [d0, start, interval, stop, offset]), ACTIVATE_SCROLL, [])
         == s.(scrolling := Scrolling(true, Scroll(op, start, interval, stop, offset), (top, rows)))
  {
  }

  /** A column window, then a page window: the pointer goes to the window's first cell. */
  lemma ExecuteWindow(s: Panel, c0: Byte, c1: Byte, p0: Byte, p1: Byte)
    ensures Execute(Execute(s, COLUMNADDR, [c0, c1]), PAGEADDR, [p0, p1])
         == s.(addr := Addressing(s.addr.mode, c0 as int, c1 as int, p0 as int, p1 as int, c0 as int, p0 as int))
  {
  }

  /** Data frames change nothing but the RAM and the pointer; the k-th is one DataByte on. */
  lemma DatasStep(s: Panel, data: seq<Byte>, k: nat)
    requires 0 < k <= |data|
    ensures ReceiveAll(s, Datas(data[..k])) == DataByte(ReceiveAll(s, Datas(data[..k - 1])), data[k - 1])
  {
    assert data[..k] == data[..k - 1] + [data[k - 1]];
    assert Datas(data[..k])[..k - 1] == Datas(data[..k - 1]);
  }

  /** In horizontal mode over the window [0, W) x [0, P), panel t is s after k data bytes:
      the pointer is at the cell of byte k, page * W + col == k, and nothing but the
      pointer and the RAM has changed. */
  predicate PointerAt(t: Panel, s: Panel, W: int, P: int, k: int)
  {
    t.addr.mode == HORIZONTAL && t.addr.colStart == 0 && t.addr.colEnd == W - 1
    && t.addr.pageStart == 0 && t.addr.pageEnd == P - 1
    && t.pending == s.pending && t.look == s.look && t.drive == s.drive && t.scrolling == s.scrolling
    && (k < W * P ==> 0 <= t.addr.col < W && 0 <= t.addr.page < P && t.addr.page * W + t.addr.col == k)
  }

  lemma {:induction false} HorizontalPointer(s: Panel, data: seq<Byte>, W: int, P: int, k: nat)
    requires 0 < W && 0 < P && s.addr == Addressing(HORIZONTAL, 0, W - 1, 0, P - 1, 0, 0)
    requires k <= |data| <= W * P
    ensures PointerAt(ReceiveAll(s, Datas(data[..k])), s, W, P, k)
    decreases k
  {
    if k > 0 {
      HorizontalPointer(s, data, W, P, k - 1);
      DatasStep(s, data, k);
      PointerStep(ReceiveAll(s, Datas(data[..k - 1])), data[k - 1], s, W, P, k);
    } else {
      assert data[..k] == [];
    }
  }

  /** One more data byte moves the pointer from the cell of byte k - 1 to that of byte k. */
  lemma PointerStep(t: Panel, b: Byte, s: Panel, W: int, P: int, k: int)
    requires 0 < W && 0 < P && 0 < k <= W * P && PointerAt(t, s, W, P, k - 1)
    ensures PointerAt(DataByte(t, b), s, W, P, k)
  {
    AdvanceHorizontal(t.addr, W, P, k);
  }

  /** In horizontal mode over the window [0, W) x [0, P), the pointer at byte k - 1 moves
      on to the cell of byte k and keeps its window. */
  lemma AdvanceHorizontal(a: Addressing, W: int, P: int, k: int)
    requires 0 < W && 0 < P && 0 < k <= W * P
    requires a.mode == HORIZONTAL && a.colStart == 0 && a.colEnd == W - 1 && a.pageStart == 0 && a.pageEnd == P - 1
    requires 0 <= a.col < W && 0 <= a.page < P && a.page * W + a.col == k - 1
    ensures var b := Advance(a);
      b.mode == HORIZONTAL && b.colStart == 0 && b.colEnd == W - 1 && b.pageStart == 0 && b.pageEnd == P - 1
      && (k < W * P ==> 0 <= b.col < W && 0 <= b.page < P && b.page * W + b.col == k)
  {
    NextCell(a.page, a.col, W, P);
  }

  /** Moving on from the last column of a page starts the next page, W bytes on. */
  lemma NextCell(page: int, col: int, W: int, P: int)
    requires 0 <= page < P && 0 <= col < W
    ensures (page + 1) * W + 0 == page * W + col + 1 <==> col == W - 1
    ensures page == P - 1 && col == W - 1 ==> page * W + col + 1 == W * P
    ensures page * W + col < W * P
  {
    MulLe(page + 1, P, W);
  }

  /** The first k data bytes are in place: page pg, column c holds byte pg * W + c. */
  ghost predicate Filled(ram: map<(int, int), Byte>, data: seq<Byte>, W: int, k: int)
    requires k <= |data|
  {
    forall pg, c | 0 <= pg && 0 <= c < W && 0 <= pg * W + c < k ::
      (pg, c) in ram && ram[(pg, c)] == data[pg * W + c]
  }

  lemma FilledAt(ram: map<(int, int), Byte>, data: seq<Byte>, W: int, k: int, pg: int, c: int)
    requires k <= |data| && Filled(ram, data, W, k)
    requires 0 <= pg && 0 <= c < W && 0 <= pg * W + c < k
    ensures (pg, c) in ram && ram[(pg, c)] == data[pg * W + c]
  {
  }

  /** Data sent after the column window [0, W) and the page window [0, P) are set in
      horizontal mode fills the window one page after another: page pg, column c holds
      byte pg * W + c. */
  lemma {:induction false} HorizontalFill(s: Panel, data: seq<Byte>, W: int, P: int, k: nat)
    requires 0 < W && 0 < P && s.addr == Addressing(HORIZONTAL, 0, W - 1, 0, P - 1, 0, 0)
    requires k <= |data| <= W * P
    ensures Filled(ReceiveAll(s, Datas(data[..k])).ram, data, W, k)
    decreases k
  {
    if k > 0 {
      var j := k - 1;
      HorizontalFill(s, data, W, P, j);
      HorizontalPointer(s, data, W, P, j);
      DatasStep(s, data, k);
      var t0 := ReceiveAll(s, Datas(data[..j]));
      FillStep(t0.ram, data, W, j, t0.addr.page, t0.addr.col);
    }
  }

  /** Storing byte j at its cell keeps the first j bytes in place and adds the j-th. */
  lemma FillStep(ram: map<(int, int), Byte>, data: seq<Byte>, W: int, j: nat, page: int, col: int)
    requires j < |data| && Filled(ram, data, W, j)
    requires 0 <= page && 0 <= col < W && page * W + col == j
    ensures Filled(ram[(page, col) := data[j]], data, W, j + 1)
  {
    var ram' := ram[(page, col) := data[j]];
    forall pg, c | 0 <= pg && 0 <= c < W && 0 <= pg * W + c < j + 1
      ensures (pg, c) in ram' && ram'[(pg, c)] == data[pg * W + c]
    {
      if pg * W + c == j {
        CellUnique(pg, c, page, col, W);
      } else {
        FilledAt(ram, data, W, j, pg, c);
        assert (pg, c) != (page, col);
      }
    }
  }

  /** A byte index names one cell: page * W + col with col < W determines page and col. */
  lemma CellUnique(p1: int, c1: int, p2: int, c2: int, W: int)
    requires 0 <= p1 && 0 <= p2 && 0 <= c1 < W && 0 <= c2 < W && p1 * W + c1 == p2 * W + c2
    ensures p1 == p2 && c1 == c2
  {
    DivModUnique(c1, p1, W);
    DivModUnique(c2, p2, W);
  }

}
