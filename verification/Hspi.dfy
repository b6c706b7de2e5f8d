/**
 The HSPI device selector: five selection states by four targets, each edge
 saving and restoring its own subset of the registers. The configuration a
 selection leaves is proved to depend on the selected device alone. Registers
 are split into the bits the driver touches and the rest.
 */
module Hspi {

  const HSPI_CS_DEV: nat := 0
  const SPI_CS1_DEV: nat := 1
  const SPI_CS2_DEV: nat := 2
  const SPI_CS0_FLASH: nat := 3
  const HSPI_IDLE: nat := 4

  /** SPI_USER; `setup` is bit 5 (SPI_CS_SETUP), `edge` is bit 7 (SPI_CK_OUT_EDGE). */
  datatype User = User(setup: bool, edge: bool, hold: bool, command: bool, flashMode: bool, rest: int)

  /** SPI_CLOCK; with `sysclk` (SPI_CLK_EQU_SYSCLK) set the divider bits are ignored. */
  datatype Clock = Clock(sysclk: bool, divider: int)

  /** SPI_PIN; a chip select is active when its disable bit is clear. */
  datatype Pin = Pin(cs0Dis: bool, cs1Dis: bool, cs2Dis: bool, rest: int)

  /** SPI_CTRL; `readMode` is the bits under SPI_FLASH_READ_MODE_MASK. */
  datatype Ctrl = Ctrl(readMode: int, rest: int)

  /** The registers of the HSPI module that spi_reg_recover writes. */
  datatype Regs = Regs(user: User, ctrl: Ctrl, clock: Clock, user1: int, user2: int, cmd: int, pin: Pin)

  /** The registers outside it; `csPin`: MTDO carries the HSPI chip select rather than GPIO15. */
  datatype Shared = Shared(overlap: bool, spiPriority: bool, hspiPriority: bool, csPin: bool)

  /** struct hspi_device_config. */
  datatype Conf = Conf(active: bool, polar: bool, div: nat)

  /** hspi_dev_reg. */
  datatype Book = Book(flash: Regs, dev: Regs, conf: seq<Conf>, selected: nat, io80m: bool, backedUp: bool)

  datatype Chip = Chip(book: Book, regs: Regs, shared: Shared)

  /** The value CONF_HSPI_CLK_DIV writes. */
  function ClkDiv(div: nat): Clock {
    var v := (2 * div + 1) * 0x1000 + div * 0x40 + 2 * div + 1;
    Clock((v / 0x8000_0000) % 2 == 1, v % 0x8000_0000)
  }

  function Effective(c: Clock): Clock {
    if c.sysclk then Clock(true, 0) else c
  }

  function ActiveCs(pin: Pin, dev: nat): Pin {
    if dev == SPI_CS1_DEV then Pin(true, false, true, pin.rest)
    else if dev == SPI_CS2_DEV then Pin(true, true, false, pin.rest)
    else Pin(false, true, true, pin.rest)
  }

  // ----- what a selection promises

  /** What the selected device depends on; bit 5 of SPI_USER is treated apart. */
  datatype Config = Config(shared: Shared, user: User, ctrl: Ctrl, clock: Clock, pin: Pin,
                           user1: int, user2: int, cmd: int)

  function Observed(c: Chip): Config {
    Config(c.shared, c.regs.user.(setup := false), c.regs.ctrl, Effective(c.regs.clock), c.regs.pin,
      c.regs.user1, c.regs.user2, c.regs.cmd)
  }

  /** The configuration a device must find, computed from the snapshots and its own settings only. */
  function Target(b: Book, dev: nat): Config
    requires dev < 4 == |b.conf|
  {
    var onBus := dev != HSPI_CS_DEV;
    var base := if dev == SPI_CS0_FLASH then b.flash else b.dev;
    Config(Shared(onBus, onBus, onBus, !onBus),
      base.user.(setup := false, edge := dev != SPI_CS0_FLASH && b.conf[dev].polar),
      base.ctrl,
      if onBus && b.io80m then Clock(true, 0)
      else if dev == SPI_CS0_FLASH then Effective(base.clock)
      else ClkDiv(b.conf[dev].div),
      ActiveCs(base.pin, dev), base.user1, base.user2, base.cmd)
  }

  /** Bit 5 of SPI_USER as the device should find it. */
  function SetupTarget(b: Book, dev: nat): bool {
    if dev == SPI_CS0_FLASH then b.flash.user.setup else true
  }

  /** The two snapshots differ only as spi_master_init makes them. */
  predicate Snapshots(b: Book) {
    && |b.conf| == 4 && b.selected <= HSPI_IDLE
    && (b.backedUp ==>
      && b.dev.ctrl == b.flash.ctrl && b.dev.pin == b.flash.pin
      && b.dev.user1 == b.flash.user1 && b.dev.user2 == b.flash.user2 && b.dev.cmd == b.flash.cmd
      && b.dev.user == b.flash.user.(setup := true, hold := true, command := true, flashMode := false)
      && b.flash.clock.sysclk == b.io80m)
    && (forall i | 0 <= i < 4 :: b.conf[i].div < 32 && (b.conf[i].active ==> b.backedUp))
  }

  /** The selected device has its own configuration. */
  predicate Consistent(c: Chip) {
    && Snapshots(c.book)
    && (c.book.backedUp && c.book.selected < HSPI_IDLE ==>
      && Observed(c) == Target(c.book, c.book.selected)
      && (c.book.selected != HSPI_CS_DEV ==> c.regs.user.setup == SetupTarget(c.book, c.book.selected)))
  }

  predicate Selectable(b: Book, dev: nat)
    requires |b.conf| == 4
  {
    dev <= 3 && b.conf[dev].active
  }

  /** What an edge of the selector leaves, before the selection is noted. */
  predicate Arrives(c: Chip, dev: nat, t: Chip)
    requires |c.book.conf| == 4 && dev < 4
  {
    if dev == c.book.selected then t == c
    else
      && t.book == c.book
      && Observed(t) == Target(c.book, dev)
      && t.regs.user.setup ==
        (if dev == HSPI_CS_DEV then c.book.selected == SPI_CS0_FLASH || c.book.selected == HSPI_IDLE
         else SetupTarget(c.book, dev))
  }

  /** All that one hspi_dev_sel call does to a consistent chip. */
  predicate Selects(c: Chip, dev: nat, t: Chip)
    requires |c.book.conf| == 4
  {
    if !Selectable(c.book, dev) then t == c
    else t.book == c.book.(selected := dev) && Arrives(c, dev, t.(book := c.book))
  }

  lemma ConsistentConf(c: Chip)
    requires Consistent(c)
    ensures |c.book.conf| == 4
  {
  }

  lemma SelectsKeeps(c: Chip, dev: nat, t: Chip)
    requires Consistent(c) && Selects(c, dev, t)
    ensures Consistent(t)
  {
  }

  /**
   The three fields of SPI_CLOCK for a divider, with no pre-divider: the clock's
   period, its low half and its high half are one more than they say.
   */
  predicate DividesBy(c: Clock, div: nat) {
    && !c.sysclk && 0 <= c.divider < 0x4_0000
    && c.divider % 64 == 2 * div + 1 && c.divider / 64 % 64 == div && c.divider / 4096 == 2 * div + 1
  }

  lemma ClkDivDivides(div: nat)
    requires div < 32
    ensures !ClkDiv(div).sysclk && Effective(ClkDiv(div)) == ClkDiv(div) && DividesBy(ClkDiv(div), div)
  {
  }

  /** What the selected device finds in each register field, by the device. */
  predicate Serves(b: Book, dev: nat, c: Chip)
    requires dev < 4 == |b.conf|
  {
    && (!c.regs.pin.cs0Dis <==> dev == HSPI_CS_DEV || dev == SPI_CS0_FLASH)
    && (!c.regs.pin.cs1Dis <==> dev == SPI_CS1_DEV)
    && (!c.regs.pin.cs2Dis <==> dev == SPI_CS2_DEV)
    && c.regs.pin.rest == b.flash.pin.rest
    && (c.shared.csPin <==> dev == HSPI_CS_DEV)
    && (c.shared.overlap <==> dev != HSPI_CS_DEV)
    && (c.shared.spiPriority <==> dev != HSPI_CS_DEV)
    && (c.shared.hspiPriority <==> dev != HSPI_CS_DEV)
    && (c.regs.user.edge <==> dev != SPI_CS0_FLASH && b.conf[dev].polar)
    && (dev == SPI_CS0_FLASH ==>
      && c.regs.user.hold == b.flash.user.hold && c.regs.user.command == b.flash.user.command
      && c.regs.user.flashMode == b.flash.user.flashMode && c.regs.user.setup == b.flash.user.setup)
    && (dev != SPI_CS0_FLASH ==> c.regs.user.hold && c.regs.user.command && !c.regs.user.flashMode)
    && (dev == SPI_CS1_DEV || dev == SPI_CS2_DEV ==> c.regs.user.setup)
    && c.regs.user.rest == b.flash.user.rest && c.regs.ctrl == b.flash.ctrl
    && c.regs.user1 == b.flash.user1 && c.regs.user2 == b.flash.user2 && c.regs.cmd == b.flash.cmd
    && (b.io80m && dev != HSPI_CS_DEV ==> c.regs.clock.sysclk)
    && (!b.io80m && dev == SPI_CS0_FLASH ==> c.regs.clock == b.flash.clock)
    && (dev == HSPI_CS_DEV || (!b.io80m && dev != SPI_CS0_FLASH) ==> DividesBy(c.regs.clock, b.conf[dev].div))
  }

  lemma ActiveBacked(c: Chip, dev: nat)
    requires Consistent(c) && Selectable(c.book, dev)
    ensures c.book.backedUp
  {
  }

  lemma ConsistentServes(c: Chip)
    requires Consistent(c) && c.book.backedUp && c.book.selected < HSPI_IDLE
    ensures Serves(c.book, c.book.selected, c)
  {
    ClkDivDivides(c.book.conf[c.book.selected].div);
    hide ClkDiv, DividesBy;
  }

  // ----- the driver

  class Selector {
    var book: Book
    var regs: Regs      // the HSPI module
    var shared: Shared
    var mux80m: bool    // PERIPHS_IO_MUX, bit 8
    var flashMode: int  // SPI_CTRL(SPI) under SPI_FLASH_READ_MODE_MASK

    function View(): Chip
      reads this
    {
      Chip(book, regs, shared)
    }

    /** Power-up: any register contents, a zeroed hspi_dev_reg. */
    constructor (regs: Regs, shared: Shared, mux80m: bool, flashMode: int)
      ensures Consistent(View()) && !book.backedUp && this.regs == regs && this.shared == shared
    {
      book := Book(regs, regs, seq(4, _ => Conf(false, false, 0)), 0, false, false);
      this.regs, this.shared, this.mux80m, this.flashMode := regs, shared, mux80m, flashMode;
    }

    /** hspi_overlap_init. */
    method OverlapInit()
      modifies this`regs, this`shared
      ensures shared == old(shared).(overlap := true, spiPriority := true, hspiPriority := true)
      ensures regs == old(regs).(user := old(regs).user.(setup := true))
    {
      shared := shared.(overlap := true);
      shared := shared.(spiPriority := true);
      shared := shared.(hspiPriority := true);
      regs := regs.(user := regs.user.(setup := true));
    }

    /** hspi_overlap_deinit. */
    method OverlapDeinit()
      modifies this`regs, this`shared
      ensures shared == old(shared).(overlap := false, spiPriority := false, hspiPriority := false)
      ensures regs == old(regs).(user := old(regs).user.(setup := false))
    {
      shared := shared.(overlap := false);
      shared := shared.(spiPriority := false);
      shared := shared.(hspiPriority := false);
      regs := regs.(user := regs.user.(setup := false));
    }

    /** ENABLE_HSPI_DEV_CS and DISABLE_HSPI_DEV_CS. */
    method DevCs(enable: bool)
      modifies this`shared
      ensures shared == old(shared).(csPin := enable)
    {
      shared := shared.(csPin := enable);
    }

    /** The edge and chip-select macros that end every branch. */
    method EdgeAndCs(falling: bool, dev: nat)
      modifies this`regs
      ensures regs == old(regs).(user := old(regs).user.(edge := falling), pin := ActiveCs(old(regs).pin, dev))
    {
      regs := regs.(user := regs.user.(edge := falling));
      regs := regs.(pin := ActiveCs(regs.pin, dev));
    }

    /** SET_PERI_REG_MASK(SPI_CLOCK(HSPI), SPI_CLK_EQU_SYSCLK). */
    method SysClock()
      modifies this`regs
      ensures regs == old(regs).(clock := old(regs).clock.(sysclk := true))
    {
      regs := regs.(clock := regs.clock.(sysclk := true));
    }

    /** CONF_HSPI_CLK_DIV. */
    method DivClock(div: nat)
      modifies this`regs
      ensures regs == old(regs).(clock := ClkDiv(div))
    {
      regs := regs.(clock := ClkDiv(div));
    }

    /** hspi_dev_sel's case HSPI_CS_DEV. */
    method FromHspiCs(dev: nat)
      requires Consistent(View()) && Selectable(book, dev) && book.selected == HSPI_CS_DEV
      modifies this`regs, this`shared
      ensures Arrives(old(View()), dev, View())
    {
      var conf := book.conf[dev];
      ClkDivDivides(conf.div);
      if dev == SPI_CS1_DEV || dev == SPI_CS2_DEV {
        DevCs(false);
        OverlapInit();
        if book.io80m { SysClock(); } else { DivClock(conf.div); }
        EdgeAndCs(conf.polar, dev);
      } else if dev == SPI_CS0_FLASH {
        DevCs(false);
        OverlapInit();
        regs := book.flash;
        if book.io80m { SysClock(); }
        EdgeAndCs(false, dev);
      }
    }

    /** hspi_dev_sel's case SPI_CS1_DEV. */
    method FromCs1(dev: nat)
      requires Consistent(View()) && Selectable(book, dev) && book.selected == SPI_CS1_DEV
      modifies this`regs, this`shared
      ensures Arrives(old(View()), dev, View())
    {
      var conf := book.conf[dev];
      ClkDivDivides(conf.div);
      if dev == SPI_CS2_DEV {
        if !book.io80m { DivClock(conf.div); }
        EdgeAndCs(conf.polar, dev);
      } else if dev == SPI_CS0_FLASH {
        regs := book.flash;
        EdgeAndCs(false, dev);
      } else if dev == HSPI_CS_DEV {
        DevCs(true);
        OverlapDeinit();
        DivClock(conf.div);
        EdgeAndCs(conf.polar, dev);
      }
    }

    /** hspi_dev_sel's case SPI_CS2_DEV. */
    method FromCs2(dev: nat)
      requires Consistent(View()) && Selectable(book, dev) && book.selected == SPI_CS2_DEV
      modifies this`regs, this`shared
      ensures Arrives(old(View()), dev, View())
    {
      var conf := book.conf[dev];
      ClkDivDivides(conf.div);
      if dev == SPI_CS1_DEV {
        if !book.io80m { DivClock(conf.div); }
        EdgeAndCs(conf.polar, dev);
      } else if dev == SPI_CS0_FLASH {
        regs := book.flash;
        EdgeAndCs(false, dev);
      } else if dev == HSPI_CS_DEV {
        DevCs(true);
        OverlapDeinit();
        DivClock(conf.div);
        EdgeAndCs(conf.polar, dev);
      }
    }

    /** hspi_dev_sel's case SPI_CS0_FLASH. */
    method FromFlash(dev: nat)
      requires Consistent(View()) && Selectable(book, dev) && book.selected == SPI_CS0_FLASH
      modifies this`regs, this`shared
      ensures Arrives(old(View()), dev, View())
    {
      var conf := book.conf[dev];
      ClkDivDivides(conf.div);
      if dev == SPI_CS1_DEV || dev == SPI_CS2_DEV {
        regs := book.dev;
        if book.io80m { SysClock(); } else { DivClock(conf.div); }
        EdgeAndCs(conf.polar, dev);
      } else if dev == HSPI_CS_DEV {
        DevCs(true);
        OverlapDeinit();
        regs := book.dev;
        DivClock(conf.div);
        EdgeAndCs(conf.polar, dev);
      }
    }

    /** hspi_dev_sel's case HSPI_IDLE. */
    method FromIdle(dev: nat)
      requires Consistent(View()) && Selectable(book, dev) && book.selected == HSPI_IDLE
      modifies this`regs, this`shared
      ensures Arrives(old(View()), dev, View())
    {
      var conf := book.conf[dev];
      ClkDivDivides(conf.div);
      if dev == SPI_CS1_DEV || dev == SPI_CS2_DEV {
        DevCs(false);
        OverlapInit();
        regs := book.dev;
        if book.io80m { SysClock(); } else { DivClock(conf.div); }
        EdgeAndCs(conf.polar, dev);
      } else if dev == SPI_CS0_FLASH {
        DevCs(false);
        OverlapInit();
        regs := book.flash;
        if book.io80m { SysClock(); }
        EdgeAndCs(false, dev);
      } else if dev == HSPI_CS_DEV {
        DevCs(true);
        OverlapDeinit();
        regs := book.dev;
        DivClock(conf.div);
        EdgeAndCs(conf.polar, dev);
      }
    }

    /** hspi_dev_sel. */
    method DevSel(dev: nat)
      requires Consistent(View())
      modifies this`book, this`regs, this`shared
      ensures Selects(old(View()), dev, View()) && Consistent(View())
      ensures if dev > 3 || !old(book).conf[dev].active then View() == old(View())
        else
          && book == old(book).(selected := dev) && Serves(book, dev, View())
          && (dev == HSPI_CS_DEV && dev != old(book.selected) ==>
            (regs.user.setup <==> old(book.selected) == SPI_CS0_FLASH || old(book.selected) == HSPI_IDLE))
    {
      hide Observed, Target, Serves;
      ghost var was := View();
      if dev > 3 {
        return;
      }
      if !book.conf[dev].active {
        return;
      }
      if book.selected == HSPI_CS_DEV {
        FromHspiCs(dev);
      } else if book.selected == SPI_CS1_DEV {
        FromCs1(dev);
      } else if book.selected == SPI_CS2_DEV {
        FromCs2(dev);
      } else if book.selected == SPI_CS0_FLASH {
        FromFlash(dev);
      } else {
        FromIdle(dev);
      }
      book := book.(selected := dev);
      assert View().(book := was.book) == Chip(was.book, regs, shared);
      SelectsKeeps(was, dev, View());
      ActiveBacked(was, dev);
      ConsistentServes(View());
    }

    /** Any sequence of hspi_dev_sel calls is a chain that `RunReachesTarget` is about. */
    method SelectAll(devs: seq<nat>) returns (ghost run: seq<Chip>)
      requires Consistent(View())
      modifies this`book, this`regs, this`shared
      ensures Chain(run, devs) && run[0] == old(View()) && run[|devs|] == View() && Consistent(View())
    {
      hide Selects, Consistent;
      run := [View()];
      assert |book.conf| == 4 by { ConsistentConf(View()); }
      var i := 0;
      while i < |devs|
        invariant 0 <= i <= |devs| && Chain(run, devs[..i])
        invariant run[0] == old(View()) && run[i] == View() && Consistent(View())
      {
        ghost var was := View();
        DevSel(devs[i]);
        ConsistentConf(View());
        run := run + [View()];
        i := i + 1;
      }
      assert devs[..|devs|] == devs;
    }

    /** spi_master_init(HSPI). */
    method MasterInit()
      modifies this`regs
      ensures regs == old(regs).(
        user := old(regs).user.(setup := true, hold := true, command := true, flashMode := false),
        clock := Clock(false, 0x3043))
    {
      regs := regs.(user := regs.user.(setup := true, hold := true, command := true));
      regs := regs.(user := regs.user.(flashMode := false));
      regs := regs.(clock := Clock(false, 0x3043));
    }

    /** The backup part of hspi_master_dev_init, run once. */
    method FirstInit()
      requires Snapshots(book) && !book.backedUp
      modifies this`book, this`regs
      ensures Snapshots(book) && book.backedUp && book.selected == HSPI_IDLE && book.conf == old(book.conf)
      ensures book.io80m == mux80m && book.dev == regs
      ensures book.flash == old(regs).(
        clock := old(regs).clock.(sysclk := mux80m), ctrl := old(regs).ctrl.(readMode := flashMode))
      ensures regs == book.flash.(
        user := old(regs).user.(setup := true, hold := true, command := true, flashMode := false),
        clock := Clock(false, 0x3043))
    {
      book := book.(io80m := mux80m);
      regs := regs.(clock := regs.clock.(sysclk := mux80m));
      regs := regs.(ctrl := regs.ctrl.(readMode := flashMode));
      book := book.(flash := regs);
      MasterInit();
      book := book.(dev := regs);
      book := book.(backedUp := true);
      book := book.(selected := HSPI_IDLE);
    }

    /**
     hspi_master_dev_init. A later call writes only the device's settings (and
     MTDO for device 0), so it keeps the chip consistent exactly when it is
     harmless to the selected device.
     */
    method DevInit(dev: nat, polar: nat, div: nat)
      requires Consistent(View())
      modifies this`book, this`regs, this`shared
      ensures Snapshots(book)
      ensures dev > 3 || polar > 1 || div > 0x1f ==> View() == old(View())
      ensures dev <= 3 && polar <= 1 && div <= 0x1f ==>
        && book.backedUp && book.conf == old(book.conf)[dev := Conf(true, polar == 1, div)]
        && shared == (if dev == HSPI_CS_DEV then old(shared).(csPin := true) else old(shared))
        && (!old(book.backedUp) ==>
          && book.selected == HSPI_IDLE && book.io80m == mux80m && book.dev == regs
          && book.flash == old(regs).(
            clock := old(regs).clock.(sysclk := mux80m), ctrl := old(regs).ctrl.(readMode := flashMode))
          && regs == book.flash.(
            user := old(regs).user.(setup := true, hold := true, command := true, flashMode := false),
            clock := Clock(false, 0x3043))
          && Consistent(View()))
        && (old(book.backedUp) ==>
          && book == old(book).(conf := book.conf) && regs == old(regs)
          && (Consistent(View()) <==> Harmless(old(book), dev, polar == 1, div)))
    {
      if dev > 3 || polar > 1 || div > 0x1f {
        return;
      }
      ghost var was := View();
      if !book.backedUp {
        FirstInit();
      }
      book := book.(conf := book.conf[dev := Conf(true, polar == 1, div)]);
      if dev == HSPI_CS_DEV {
        shared := shared.(csPin := true);
      }
      if was.book.backedUp {
        InitConsistency(was, dev, polar == 1, div, View());
      }
    }
  }

  /** Re-initialising changes nothing the selected device depends on. */
  predicate Harmless(b: Book, dev: nat, polar: bool, div: nat)
    requires |b.conf| == 4 && dev < 4
  {
    || b.selected == HSPI_IDLE
    || ( && (dev == HSPI_CS_DEV ==> b.selected == HSPI_CS_DEV)
         && (dev == b.selected && dev != SPI_CS0_FLASH ==>
           && b.conf[dev].polar == polar
           && (b.conf[dev].div == div || (b.io80m && dev != HSPI_CS_DEV))))
  }

  lemma InitConsistency(c: Chip, dev: nat, polar: bool, div: nat, t: Chip)
    requires Consistent(c) && c.book.backedUp && dev < 4 && div < 32
    requires t.book == c.book.(conf := c.book.conf[dev := Conf(true, polar, div)]) && t.regs == c.regs
    requires t.shared == (if dev == HSPI_CS_DEV then c.shared.(csPin := true) else c.shared)
    ensures Consistent(t) <==> Harmless(c.book, dev, polar, div)
  {
    var sel := c.book.selected;
    if sel < HSPI_IDLE {
      if dev == sel {
        assert Target(t.book, sel).user.edge == Target(c.book, sel).user.edge <==>
            dev == SPI_CS0_FLASH || polar == c.book.conf[dev].polar;
        assert Target(t.book, sel).clock == Target(c.book, sel).clock <==>
            dev == SPI_CS0_FLASH || (c.book.io80m && dev != HSPI_CS_DEV) || div == c.book.conf[dev].div;
      } else {
        assert Target(t.book, sel) == Target(c.book, sel);
      }
    }
  }

  /** Re-initialising the selected device with the other edge leaves it on its old one. */
  lemma ReinitGoesStale(c: Chip, t: Chip)
    requires Consistent(c) && c.book.backedUp && c.book.selected == SPI_CS1_DEV
    requires var was := c.book.conf[SPI_CS1_DEV];
      t == c.(book := c.book.(conf := c.book.conf[SPI_CS1_DEV := Conf(true, !was.polar, was.div)]))
    ensures !Consistent(t) && t.regs.user.edge != t.book.conf[SPI_CS1_DEV].polar
  {
    var was := c.book.conf[SPI_CS1_DEV];
    InitConsistency(c, SPI_CS1_DEV, !was.polar, was.div, t);
  }

  // ----- every run of selections

  /** `run` is the chips seen along the selections `devs`. */
  predicate Chain(run: seq<Chip>, devs: seq<nat>) {
    && |run| == |devs| + 1
    && (forall i | 0 <= i < |run| :: |run[i].book.conf| == 4)
    && (forall i | 0 <= i < |devs| :: Selects(run[i], devs[i], run[i + 1]))
  }

  function LastSelected(b: Book, devs: seq<nat>): nat
    requires |b.conf| == 4
  {
    if devs == [] then b.selected
    else if Selectable(b, devs[|devs| - 1]) then devs[|devs| - 1]
    else LastSelected(b, devs[..|devs| - 1])
  }

  /** Bit 5 of SPI_USER after a run. */
  function LastSetup(c: Chip, devs: seq<nat>): bool
    requires |c.book.conf| == 4
  {
    if devs == [] then c.regs.user.setup
    else
      var n := |devs| - 1;
      var dev, from := devs[n], LastSelected(c.book, devs[..n]);
      if !Selectable(c.book, dev) || dev == from then LastSetup(c, devs[..n])
      else if dev == HSPI_CS_DEV then from == SPI_CS0_FLASH || from == HSPI_IDLE
      else SetupTarget(c.book, dev)
  }

  lemma {:induction false} RunTarget(run: seq<Chip>, devs: seq<nat>)
    requires Chain(run, devs) && Consistent(run[0]) && run[0].book.backedUp
    ensures var first, last := run[0], run[|devs|]; var sel := LastSelected(first.book, devs);
      && Consistent(last) && last.book == first.book.(selected := sel)
      && (sel < HSPI_IDLE ==> Observed(last) == Target(first.book, sel))
      && last.regs.user.setup == LastSetup(first, devs)
  {
    if devs != [] {
      var n := |devs| - 1;
      RunTarget(run[..n + 1], devs[..n]);
      assert Selects(run[n], devs[n], run[n + 1]);
      SelectsKeeps(run[n], devs[n], run[n + 1]);
    }
  }

  /**
   After any run the configuration is that of the last selected device, register
   field by register field: how it was reached does not matter.
   */
  lemma RunReachesTarget(run: seq<Chip>, devs: seq<nat>)
    requires Chain(run, devs) && Consistent(run[0]) && run[0].book.backedUp
    ensures var first, last := run[0], run[|devs|]; var sel := LastSelected(first.book, devs);
      && Consistent(last) && last.book == first.book.(selected := sel)
      && (sel < HSPI_IDLE ==> Observed(last) == Target(first.book, sel) && Serves(first.book, sel, last))
      && last.regs.user.setup == LastSetup(first, devs)
  {
    hide Consistent, Observed, Target, LastSelected, LastSetup;
    RunTarget(run, devs);
    if run[|devs|].book.selected < HSPI_IDLE {
      ConsistentServes(run[|devs|]);
    }
  }

  /**
   Two runs that end on the same device leave it the same configuration; SPI_USER
   is the same with bit 5 exactly when the runs leave that bit alike, which they
   always do unless the device is HSPI_CS_DEV.
   */
  lemma HistoryIndependent(run1: seq<Chip>, devs1: seq<nat>, run2: seq<Chip>, devs2: seq<nat>)
    requires Chain(run1, devs1) && Chain(run2, devs2)
    requires run1[0].book == run2[0].book && run1[0].book.backedUp && Consistent(run1[0]) && Consistent(run2[0])
    requires LastSelected(run1[0].book, devs1) == LastSelected(run2[0].book, devs2) < HSPI_IDLE
    ensures Observed(run1[|devs1|]) == Observed(run2[|devs2|])
    ensures run1[|devs1|].regs.user == run2[|devs2|].regs.user
       <==> LastSetup(run1[0], devs1) == LastSetup(run2[0], devs2)
    ensures LastSelected(run1[0].book, devs1) != HSPI_CS_DEV ==>
      run1[|devs1|].regs.user == run2[|devs2|].regs.user
  {
    RunReachesTarget(run1, devs1);
    RunReachesTarget(run2, devs2);
    var u1, u2 := run1[|devs1|].regs.user, run2[|devs2|].regs.user;
    assert u1.(setup := false) == u2.(setup := false);
    assert u1 == u2.(setup := u1.setup);
  }

  /** A chip on which `dev` has just been selected. */
  function Selected(c: Chip, dev: nat): (t: Chip)
    requires Consistent(c) && Selectable(c.book, dev) && dev != c.book.selected
    ensures Selects(c, dev, t)
  {
    var goal := Target(c.book, dev);
    var setup := if dev == HSPI_CS_DEV then c.book.selected == SPI_CS0_FLASH || c.book.selected == HSPI_IDLE
                 else SetupTarget(c.book, dev);
    ClkDivDivides(c.book.conf[dev].div);
    Chip(c.book.(selected := dev),
      Regs(goal.user.(setup := setup), goal.ctrl, goal.clock, goal.user1, goal.user2, goal.cmd, goal.pin),
      goal.shared)
  }

  lemma Chain2(c: Chip, dev1: nat, dev2: nat) returns (run: seq<Chip>)
    requires Consistent(c) && c.book.selected == HSPI_IDLE
    requires Selectable(c.book, dev1) && Selectable(c.book, dev2) && dev1 != dev2
    ensures Chain(run, [dev1, dev2]) && run[0] == c
  {
    var d := Selected(c, dev1);
    SelectsKeeps(c, dev1, d);
    run := [c, d, Selected(d, dev2)];
  }

  /**
   Bit 5 of SPI_USER does remember: HSPI_CS_DEV finds it set when coming from the
   flash and clear when coming from CS1.
   */
  lemma SetupBitRemembers(c: Chip) returns (viaFlash: seq<Chip>, viaCs1: seq<Chip>)
    requires Consistent(c) && c.book.selected == HSPI_IDLE
    requires Selectable(c.book, HSPI_CS_DEV) && Selectable(c.book, SPI_CS1_DEV) && Selectable(c.book, SPI_CS0_FLASH)
    ensures Chain(viaFlash, [SPI_CS0_FLASH, HSPI_CS_DEV]) && Chain(viaCs1, [SPI_CS1_DEV, HSPI_CS_DEV])
    ensures viaFlash[0] == viaCs1[0] == c
    ensures Observed(viaFlash[2]) == Observed(viaCs1[2])
    ensures viaFlash[2].regs.user.setup && !viaCs1[2].regs.user.setup
  {
    hide Selects, Consistent, Observed;
    viaFlash := Chain2(c, SPI_CS0_FLASH, HSPI_CS_DEV);
    viaCs1 := Chain2(c, SPI_CS1_DEV, HSPI_CS_DEV);
    Backed(c);
    assert [SPI_CS0_FLASH, HSPI_CS_DEV][..1] == [SPI_CS0_FLASH];
    assert [SPI_CS1_DEV, HSPI_CS_DEV][..1] == [SPI_CS1_DEV];
    RunReachesTarget(viaFlash, [SPI_CS0_FLASH, HSPI_CS_DEV]);
    RunReachesTarget(viaCs1, [SPI_CS1_DEV, HSPI_CS_DEV]);
  }

  lemma Backed(c: Chip)
    requires Consistent(c) && Selectable(c.book, HSPI_CS_DEV)
    ensures c.book.backedUp
  {
  }
}
