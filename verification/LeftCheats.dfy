/** The table that predicts how many digits a left shift adds, and why its predictions are exact. */
module LeftCheats {
  import opened Powers
  import opened Digits

  /** A shift by k adds delta digits, or one fewer when the digits read as a prefix fall below the cutoff. */
  datatype LeftCheat = LeftCheat(delta: nat, cutoff: nat)

  /** The table, with each cutoff as the number its text writes. */
  function Row(k: nat): LeftCheat
    requires k <= 60
  {
    match k
    case 0 => LeftCheat(0, 1)
    case 1 => LeftCheat(1, 5)
    case 2 => LeftCheat(1, 25)
    case 3 => LeftCheat(1, 125)
    case 4 => LeftCheat(2, 625)
    case 5 => LeftCheat(2, 3125)
    case 6 => LeftCheat(2, 15625)
    case 7 => LeftCheat(3, 78125)
    case 8 => LeftCheat(3, 390625)
    case 9 => LeftCheat(3, 1953125)
    case 10 => LeftCheat(4, 9765625)
    case 11 => LeftCheat(4, 48828125)
    case 12 => LeftCheat(4, 244140625)
    case 13 => LeftCheat(4, 1220703125)
    case 14 => LeftCheat(5, 6103515625)
    case 15 => LeftCheat(5, 30517578125)
    case 16 => LeftCheat(5, 152587890625)
    case 17 => LeftCheat(6, 762939453125)
    case 18 => LeftCheat(6, 3814697265625)
    case 19 => LeftCheat(6, 19073486328125)
    case 20 => LeftCheat(7, 95367431640625)
    case 21 => LeftCheat(7, 476837158203125)
    case 22 => LeftCheat(7, 2384185791015625)
    case 23 => LeftCheat(7, 11920928955078125)
    case 24 => LeftCheat(8, 59604644775390625)
    case 25 => LeftCheat(8, 298023223876953125)
    case 26 => LeftCheat(8, 1490116119384765625)
    case 27 => LeftCheat(9, 7450580596923828125)
    case 28 => LeftCheat(9, 37252902984619140625)
    case 29 => LeftCheat(9, 186264514923095703125)
    case 30 => LeftCheat(10, 931322574615478515625)
    case 31 => LeftCheat(10, 4656612873077392578125)
    case 32 => LeftCheat(10, 23283064365386962890625)
    case 33 => LeftCheat(10, 116415321826934814453125)
    case 34 => LeftCheat(11, 582076609134674072265625)
    case 35 => LeftCheat(11, 2910383045673370361328125)
    case 36 => LeftCheat(11, 14551915228366851806640625)
    case 37 => LeftCheat(12, 72759576141834259033203125)
    case 38 => LeftCheat(12, 363797880709171295166015625)
    case 39 => LeftCheat(12, 1818989403545856475830078125)
    case 40 => LeftCheat(13, 9094947017729282379150390625)
    case 41 => LeftCheat(13, 45474735088646411895751953125)
    case 42 => LeftCheat(13, 227373675443232059478759765625)
    case 43 => LeftCheat(13, 1136868377216160297393798828125)
    case 44 => LeftCheat(14, 5684341886080801486968994140625)
    case 45 => LeftCheat(14, 28421709430404007434844970703125)
    case 46 => LeftCheat(14, 142108547152020037174224853515625)
    case 47 => LeftCheat(15, 710542735760100185871124267578125)
    case 48 => LeftCheat(15, 3552713678800500929355621337890625)
    case 49 => LeftCheat(15, 17763568394002504646778106689453125)
    case 50 => LeftCheat(16, 88817841970012523233890533447265625)
    case 51 => LeftCheat(16, 444089209850062616169452667236328125)
    case 52 => LeftCheat(16, 2220446049250313080847263336181640625)
    case 53 => LeftCheat(16, 11102230246251565404236316680908203125)
    case 54 => LeftCheat(17, 55511151231257827021181583404541015625)
    case 55 => LeftCheat(17, 277555756156289135105907917022705078125)
    case 56 => LeftCheat(17, 1387778780781445675529539585113525390625)
    case 57 => LeftCheat(18, 6938893903907228377647697925567626953125)
    case 58 => LeftCheat(18, 34694469519536141888238489627838134765625)
    case 59 => LeftCheat(18, 173472347597680709441192448139190673828125)
    case 60 => LeftCheat(19, 867361737988403547205962240695953369140625)
  }

  /** The cutoff as text; the first row's is empty. */
  function Cutoff(k: nat): seq<Digit>
    requires k <= 60
  {
    if k == 0 then [] else Render(Row(k).cutoff)
  }

  /** Ten to the e, as a literal. */
  function Ten(e: nat): nat
    requires e <= 42
  {
    match e
    case 0 => 1
    case 1 => 10
    case 2 => 100
    case 3 => 1000
    case 4 => 10000
    case 5 => 100000
    case 6 => 1000000
    case 7 => 10000000
    case 8 => 100000000
    case 9 => 1000000000
    case 10 => 10000000000
    case 11 => 100000000000
    case 12 => 1000000000000
    case 13 => 10000000000000
    case 14 => 100000000000000
    case 15 => 1000000000000000
    case 16 => 10000000000000000
    case 17 => 100000000000000000
    case 18 => 1000000000000000000
    case 19 => 10000000000000000000
    case 20 => 100000000000000000000
    case 21 => 1000000000000000000000
    case 22 => 10000000000000000000000
    case 23 => 100000000000000000000000
    case 24 => 1000000000000000000000000
    case 25 => 10000000000000000000000000
    case 26 => 100000000000000000000000000
    case 27 => 1000000000000000000000000000
    case 28 => 10000000000000000000000000000
    case 29 => 100000000000000000000000000000
    case 30 => 1000000000000000000000000000000
    case 31 => 10000000000000000000000000000000
    case 32 => 100000000000000000000000000000000
    case 33 => 1000000000000000000000000000000000
    case 34 => 10000000000000000000000000000000000
    case 35 => 100000000000000000000000000000000000
    case 36 => 1000000000000000000000000000000000000
    case 37 => 10000000000000000000000000000000000000
    case 38 => 100000000000000000000000000000000000000
    case 39 => 1000000000000000000000000000000000000000
    case 40 => 10000000000000000000000000000000000000000
    case 41 => 100000000000000000000000000000000000000000
    case 42 => 1000000000000000000000000000000000000000000
  }

  lemma {:induction false} TenIsPower(e: nat)
    requires e <= 42
    ensures Ten(e) == Pow(10, e)
  {
    if e > 0 {
      TenIsPower(e - 1);
      TenStep(e - 1);
    }
  }

  lemma TenStep(e: nat)
    requires e < 42
    ensures Ten(e + 1) == 10 * Ten(e)
  {
  }

  lemma {:induction false} CutoffIsFivePower(k: nat)
    requires k <= 60
    ensures Row(k).cutoff == Pow(5, k)
  {
    if k > 0 {
      CutoffIsFivePower(k - 1);
      CutoffStep(k - 1);
    }
  }

  lemma CutoffStep(k: nat)
    requires k < 60
    ensures Row(k + 1).cutoff == 5 * Row(k).cutoff
  {
  }

  lemma DeltaBound(k: nat)
    requires 1 <= k <= 60
    ensures 1 <= Row(k).delta <= k && k - Row(k).delta <= 41
  {
  }

  lemma DeltaLow(k: nat)
    requires 1 <= k <= 30 && Row(k).delta <= k && k - Row(k).delta <= 41
    ensures Ten(k - Row(k).delta) <= Row(k).cutoff < Ten(k - Row(k).delta + 1)
  {
  }

  lemma DeltaHigh(k: nat)
    requires 30 < k <= 60 && Row(k).delta <= k && k - Row(k).delta <= 41
    ensures Ten(k - Row(k).delta) <= Row(k).cutoff < Ten(k - Row(k).delta + 1)
  {
  }

  /** Row k's cutoff is 5^k, and its delta is one more than k less the digits of the cutoff. */
  lemma RowIsRight(k: nat)
    requires 1 <= k <= 60
    ensures Num(Cutoff(k)) == Pow(5, k)
    ensures Row(k).delta == k - |Cutoff(k)| + 1
    ensures 1 <= |Cutoff(k)| <= k
    ensures Cutoff(k)[|Cutoff(k)| - 1] != '0'
  {
    hide Row, Ten, Pow, Num;
    CutoffIsFivePower(k);
    NumRender(Row(k).cutoff);
    DeltaBound(k);
    var len := k - Row(k).delta + 1;
    TenIsPower(len - 1);
    TenIsPower(len);
    if k <= 30 {
      DeltaLow(k);
    } else {
      DeltaHigh(k);
    }
    RenderLength(Row(k).cutoff, len);
    LastDigitOfFivePower(k);
  }

  lemma {:induction false} FivePowerMod(k: nat)
    requires 1 <= k
    ensures Pow(5, k) % 10 == 5
  {
    if k > 1 {
      FivePowerMod(k - 1);
    }
  }

  lemma LastDigitOfFivePower(k: nat)
    requires 1 <= k <= 60
    ensures Cutoff(k) != [] && Cutoff(k)[|Cutoff(k)| - 1] == '5'
  {
    CutoffIsFivePower(k);
    FivePowerMod(k);
    hide Row;
    var n := Row(k).cutoff;
    assert Render(n) == Render(n / 10) + [Chr(5)];
  }
}
