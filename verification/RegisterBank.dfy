/**
 Banked control registers: the driver remembers which bank the chip has selected and
 switches only when it must, and still every access reaches the register it names.
 */
module RegisterBank {
  import opened Bytes

  const FIRST_COMMON := 0x1B
  const ECON1 := 0x1F

  /** Five bits of register number; two bits of bank; the top bit marks MAC and MII registers. */
  type Address = n: nat | n < 0x100

  function Bank(a: Address): nat {
    a / 0x20 % 4
  }

  /** Where a register lives: the last five are the same in every bank. */
  function Cell(bank: nat, number: nat): (c: nat)
    requires bank < 4 && number < 0x20
    ensures c < 0xA0
  {
    if number >= FIRST_COMMON then 0x80 + number else 0x20 * bank + number
  }

  /** The register an address names. */
  function Home(a: Address): (c: nat)
    ensures c < 0xA0
  {
    Cell(Bank(a), a % 0x20)
  }

  const ECON1_CELL := 0x9F

  lemma CellInjective(b: nat, m: nat, c: nat, n: nat)
    requires b < 4 && c < 4 && m < 0x20 && n < 0x20
    ensures Cell(b, m) == Cell(c, n) <==> m == n && (b == c || m >= FIRST_COMMON)
  {
  }

  /** Two addresses name one register when number and bank bits agree; from 0x1B on the bank bits do not matter. */
  lemma HomesAgree(a: Address, b: Address)
    ensures Home(a) == Home(b) <==> a % 32 == b % 32 && (a / 32 % 4 == b / 32 % 4 || a % 32 >= 0x1B)
  {
    CellInjective(Bank(a), a % 0x20, Bank(b), b % 0x20);
  }

  /** The chip as the bus sees it: accesses go to the selected bank. */
  class Registers {
    var cells: seq<byte>

    ghost predicate Valid()
      reads this
    {
      |cells| == 0xA0
    }

    function Selected(): (b: nat)
      requires Valid()
      reads this
      ensures b < 4
    {
      cells[ECON1_CELL] % 4
    }

    /** What the registers hold, the bank selection apart. */
    ghost function Contents(): seq<byte>
      requires Valid()
      reads this
    {
      cells[ECON1_CELL := cells[ECON1_CELL] / 4 * 4]
    }

    constructor ()
      ensures Valid() && Selected() == 0 && Contents() == Zeros(0xA0)
    {
      cells := Zeros(0xA0);
    }

    method WriteControl(number: nat, data: byte)
      requires Valid() && number < 0x20
      modifies this
      ensures cells == old(cells)[Cell(old(Selected()), number) := data]
    {
      cells := cells[Cell(Selected(), number) := data];
    }

    method ReadControl(number: nat) returns (data: byte)
      requires Valid() && number < 0x20
      ensures data == cells[Cell(Selected(), number)]
    {
      return cells[Cell(Selected(), number)];
    }

    /** Bit field clear with the two bank bits. */
    method ClearBankBits()
      requires Valid()
      modifies this
      ensures Valid() && Selected() == 0 && Contents() == old(Contents())
    {
      cells := cells[ECON1_CELL := cells[ECON1_CELL] / 4 * 4];
    }

    /** Bit field set with a bank, over cleared bank bits. */
    method SetBankBits(bank: nat)
      requires Valid() && bank < 4 && Selected() == 0
      modifies this
      ensures Valid() && Selected() == bank && Contents() == old(Contents())
    {
      cells := cells[ECON1_CELL := cells[ECON1_CELL] + bank];
    }
  }

  class Driver {
    const chip: Registers
    var bank: nat

    ghost predicate Valid()
      reads this, chip
    {
      chip.Valid() && bank == chip.Selected()
    }

    /** After a soft reset, which selects bank 0 on both sides. */
    constructor ()
      ensures Valid() && fresh(chip) && chip.Contents() == Zeros(0xA0)
    {
      chip := new Registers();
      bank := 0;
    }

    method SetBank(a: Address)
      requires Valid()
      modifies this, chip
      ensures Valid() && bank == Bank(a) && chip.Contents() == old(chip.Contents())
    {
      var wanted := Bank(a);
      if wanted == bank {
        return;
      }
      var econ1 := chip.ReadControl(ECON1);
      if econ1 as nat % 4 != wanted {
        chip.ClearBankBits();
        chip.SetBankBits(wanted);
      }
      bank := wanted;
    }

    /**
     A write reaches the named register and no other. Written over the bank selection
     itself, it leaves chip and driver agreeing exactly if it selects the same bank.
     */
    method WriteByte(a: Address, data: byte)
      requires Valid()
      modifies this, chip
      ensures chip.Valid() && bank == Bank(a)
      ensures chip.Contents() == old(chip.Contents())[Home(a) := if a % 0x20 == ECON1 then data / 4 * 4 else data]
      ensures Valid() <==> a % 0x20 != ECON1 || data as nat % 4 == Bank(a)
    {
      SetBank(a);
      chip.WriteControl(a % 0x20, data);
    }

    method ReadByte(a: Address) returns (data: byte)
      requires Valid()
      modifies this, chip
      ensures Valid() && chip.Contents() == old(chip.Contents())
      ensures data as int == chip.Contents()[Home(a)] as int + if a % 0x20 == ECON1 then Bank(a) else 0
    {
      SetBank(a);
      data := chip.ReadControl(a % 0x20);
    }

    /** Two registers, low byte first. */
    method WriteWord(a: Address, data: u16)
      requires Valid() && a % 0x20 < ECON1 - 1 && a < 0xFF
      modifies this, chip
      ensures Valid() && chip.Contents() == old(chip.Contents())[Home(a) := data % 0x100][Home(a + 1) := data / 0x100]
    {
      WriteByte(a, data % 0x100);
      WriteByte(a + 1, data / 0x100);
    }

    method ReadWord(a: Address) returns (data: u16)
      requires Valid() && a % 0x20 < ECON1 - 1 && a < 0xFF
      modifies this, chip
      ensures Valid() && chip.Contents() == old(chip.Contents())
      ensures Le16(data) == [chip.Contents()[Home(a)], chip.Contents()[Home(a + 1)]]
    {
      var low := ReadByte(a);
      var high := ReadByte(a + 1);
      data := low as int + 0x100 * high as int;
    }
  }

  /** A word written is read back whatever bank was selected, and other registers keep their values. */
  method WordComesBack(driver: Driver, a: Address, b: Address, data: u16) returns (same: u16, before: byte, after: byte)
    requires driver.Valid() && a % 0x20 < ECON1 - 1 && a < 0xFF && b % 0x20 != ECON1
    requires Home(b) != Home(a) && Home(b) != Home(a + 1)
    modifies driver, driver.chip
    ensures same == data && before == after
  {
    before := driver.ReadByte(b);
    driver.WriteWord(a, data);
    after := driver.ReadByte(b);
    same := driver.ReadWord(a);
    CellInjective(Bank(a), a % 0x20, Bank(a + 1), (a + 1) % 0x20);
    assert Le16(same)[0] as int + 0x100 * Le16(same)[1] as int == Le16(data)[0] as int + 0x100 * Le16(data)[1] as int;
  }
}
