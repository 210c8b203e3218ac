/** The settlement of one round in `Game13::calcRound` and the final count of
    `Game13::trySettleGame` (processes/lobby/game13.cpp). Who beats whom for how much is opaque. */
module GameLedger {
  import opened Common

  // What one loser owes the winner: points, and whether all three rows were lost ("gun").
  datatype Score = Score(points: int, gun: int)

  // Entry (w, l) of the winners' `losers` maps.
  type Scores = (nat, nat) -> Option<Score>

  function Amount(scores: Scores, w: nat, l: nat): int {
    match scores(w, l)
    case None => 0
    case Some(s) => if s.gun > 0 then s.points * 2 else s.points
  }

  // What seat k takes from the first n seats, and what it pays to them.
  function Won(scores: Scores, k: nat, n: nat): int {
    if n == 0 then 0 else Won(scores, k, n - 1) + Amount(scores, k, n - 1)
  }

  function Lost(scores: Scores, k: nat, n: nat): int {
    if n == 0 then 0 else Lost(scores, k, n - 1) + Amount(scores, n - 1, k)
  }

  function Prize(scores: Scores, n: nat, k: nat): int {
    Won(scores, k, n) - Lost(scores, k, n)
  }

  function Prizes(scores: Scores, n: nat): (r: seq<int>)
    ensures |r| == n
  {
    seq(n, k requires 0 <= k < n => Prize(scores, n, k))
  }

  function Sum(xs: seq<int>): int {
    if xs == [] then 0 else Sum(xs[..|xs| - 1]) + xs[|xs| - 1]
  }

  // A sum is taken entry by entry.
  lemma {:induction false} SumAppend(xs: seq<int>, ys: seq<int>)
    ensures Sum(xs + ys) == Sum(xs) + Sum(ys)
    ensures forall x: int :: Sum([x]) == x
    decreases |ys|
  {
    forall x: int ensures Sum([x]) == x { assert [x][..0] == []; }
    if ys == [] {
      assert xs + ys == xs;
    } else {
      assert (xs + ys)[..|xs + ys| - 1] == xs + ys[..|ys| - 1];
      SumAppend(xs, ys[..|ys| - 1]);
    }
  }

  // A single win moves its points from the loser to the winner, twice as many with a gun.
  lemma OneWinMoves(points: int, gun: int, w: nat, l: nat, n: nat)
    requires w < n && l < n && w != l
    ensures var p := Prizes(OneWin(points, gun, w, l), n);
      && p[w] == (if gun > 0 then points + points else points) && p[l] == -p[w]
      && forall k :: 0 <= k < n && k != w && k != l ==> p[k] == 0
  {
    forall k: nat | k < n
      ensures Won(OneWin(points, gun, w, l), k, n) == if k == w then Amount(OneWin(points, gun, w, l), w, l) else 0
      ensures Lost(OneWin(points, gun, w, l), k, n) == if k == l then Amount(OneWin(points, gun, w, l), w, l) else 0
    {
      OneWinCounts(points, gun, w, l, k, n);
    }
  }

  function OneWin(points: int, gun: int, w: nat, l: nat): Scores {
    (i: nat, j: nat) => if i == w && j == l then Some(Score(points, gun)) else None
  }

  lemma {:induction false} OneWinCounts(points: int, gun: int, w: nat, l: nat, k: nat, n: nat)
    ensures var one := OneWin(points, gun, w, l);
      && Won(one, k, n) == (if k == w && l < n then Amount(one, w, l) else 0)
      && Lost(one, k, n) == (if k == l && w < n then Amount(one, w, l) else 0)
  {
    if n > 0 { OneWinCounts(points, gun, w, l, k, n - 1); }
  }

  // ---------------------------------------------------------------- money is only moved

  function WonBy(scores: Scores, m: nat, n: nat): int {
    if m == 0 then 0 else WonBy(scores, m - 1, n) + Won(scores, m - 1, n)
  }

  function LostBy(scores: Scores, m: nat, n: nat): int {
    if m == 0 then 0 else LostBy(scores, m - 1, n) + Lost(scores, m - 1, n)
  }

  lemma {:induction false} LostByGrows(scores: Scores, m: nat, n: nat)
    ensures LostBy(scores, m, n + 1) == LostBy(scores, m, n) + Won(scores, n, m)
  {
    if m > 0 { LostByGrows(scores, m - 1, n); }
  }

  lemma {:induction false} NoLosers(scores: Scores, m: nat)
    ensures LostBy(scores, m, 0) == 0
  {
    if m > 0 { NoLosers(scores, m - 1); }
  }

  // Every amount that one seat takes another one pays.
  lemma {:induction false} TakenIsPaid(scores: Scores, w: nat, n: nat)
    ensures WonBy(scores, w, n) == LostBy(scores, n, w)
  {
    if w == 0 {
      NoLosers(scores, n);
    } else {
      TakenIsPaid(scores, w - 1, n);
      LostByGrows(scores, n, w - 1);
    }
  }

  lemma {:induction false} SumOfPrizes(scores: Scores, n: nat, m: nat)
    requires m <= n
    ensures Sum(Prizes(scores, n)[..m]) == WonBy(scores, m, n) - LostBy(scores, m, n)
  {
    if m > 0 {
      SumOfPrizes(scores, n, m - 1);
      assert Prizes(scores, n)[..m][..m - 1] == Prizes(scores, n)[..m - 1];
    }
  }

  // A round moves money between seats and creates none.
  lemma RoundIsZeroSum(scores: Scores, n: nat)
    ensures Sum(Prizes(scores, n)) == 0
  {
    SumOfPrizes(scores, n, n);
    TakenIsPaid(scores, n, n);
    assert Prizes(scores, n)[..n] == Prizes(scores, n);
  }

  // ---------------------------------------------------------------- the grand slam

  // How many of the first n seats lost to w.
  function Losers(scores: Scores, w: nat, n: nat): nat {
    if n == 0 then 0 else Losers(scores, w, n - 1) + if scores(w, n - 1).Some? then 1 else 0
  }

  // Seat w beats all others with a gun, in a room where that counts.
  predicate Slam(scores: Scores, n: nat, quanLeiDaOn: bool, playerSize: nat, w: nat) {
    && quanLeiDaOn && playerSize > 2 && Losers(scores, w, n) + 1 == n
    && forall l :: 0 <= l < n && scores(w, l).Some? ==> scores(w, l).value.gun != 0
  }

  // Rule 10 as it is written down: what a grand slam takes is doubled.
  function ByRule10(scores: Scores, n: nat, quanLeiDaOn: bool, playerSize: nat): Scores {
    (w: nat, l: nat) =>
      if Slam(scores, n, quanLeiDaOn, playerSize, w) && scores(w, l).Some? then
        Some(Score(scores(w, l).value.points * 2, scores(w, l).value.gun))
      else scores(w, l)
  }

  function SlamsOnly(scores: Scores, n: nat, quanLeiDaOn: bool, playerSize: nat): Scores {
    (w: nat, l: nat) => if Slam(scores, n, quanLeiDaOn, playerSize, w) then scores(w, l) else None
  }

  lemma {:induction false} AmountsAdd(a: Scores, b: Scores, c: Scores, k: nat, n: nat)
    requires forall w, l :: Amount(c, w, l) == Amount(a, w, l) + Amount(b, w, l)
    ensures Won(c, k, n) == Won(a, k, n) + Won(b, k, n) && Lost(c, k, n) == Lost(a, k, n) + Lost(b, k, n)
  {
    if n > 0 { AmountsAdd(a, b, c, k, n - 1); }
  }

  // A round is settled as rule 10 says if and only if its grand slams alone would move nothing.
  lemma GrandSlamsMissing(scores: Scores, n: nat, quanLeiDaOn: bool, playerSize: nat)
    ensures var rule, slams := ByRule10(scores, n, quanLeiDaOn, playerSize), SlamsOnly(scores, n, quanLeiDaOn, playerSize);
      && (forall k: nat :: Prize(rule, n, k) == Prize(scores, n, k) + Prize(slams, n, k))
      && (Prizes(scores, n) == Prizes(rule, n) <==> forall k :: 0 <= k < n ==> Prize(slams, n, k) == 0)
  {
    var rule, slams := ByRule10(scores, n, quanLeiDaOn, playerSize), SlamsOnly(scores, n, quanLeiDaOn, playerSize);
    forall k: nat ensures Prize(rule, n, k) == Prize(scores, n, k) + Prize(slams, n, k) {
      AmountsAdd(scores, slams, rule, k, n);
    }
    assert forall k :: 0 <= k < n ==> Prizes(scores, n)[k] == Prize(scores, n, k) && Prizes(rule, n)[k] == Prize(rule, n, k);
  }

  // What is won and lost if of the seats below m only w takes anything.
  lemma {:induction false} OneTaker(scores: Scores, only: Scores, m: nat, w: nat, k: nat, n: nat)
    requires n <= m && k < m
    requires forall v: nat, l: nat :: v < m ==> Amount(only, v, l) == if v == w then Amount(scores, w, l) else 0
    ensures Won(only, k, n) == if k == w then Won(scores, w, n) else 0
    ensures Lost(only, k, n) == if w < n then Amount(scores, w, k) else 0
  {
    if n > 0 { OneTaker(scores, only, m, w, k, n - 1); }
  }

  lemma {:induction false} TakesFromItself(scores: Scores, w: nat, n: nat)
    requires forall l :: 0 <= l < n && l != w ==> Amount(scores, w, l) == 0
    ensures Won(scores, w, n) == if w < n then Amount(scores, w, w) else 0
  {
    if n > 0 { TakesFromItself(scores, w, n - 1); }
  }

  // With one grand slam at most that is so if and only if it takes nothing from any other seat.
  lemma GrandSlamExactly(scores: Scores, n: nat, quanLeiDaOn: bool, playerSize: nat)
    requires forall v, w :: 0 <= v < w < n ==>
      !(Slam(scores, n, quanLeiDaOn, playerSize, v) && Slam(scores, n, quanLeiDaOn, playerSize, w))
    ensures Prizes(scores, n) == Prizes(ByRule10(scores, n, quanLeiDaOn, playerSize), n)
      <==> forall w, l :: 0 <= w < n && 0 <= l < n && w != l && Slam(scores, n, quanLeiDaOn, playerSize, w)
             ==> Amount(scores, w, l) == 0
  {
    var slams := SlamsOnly(scores, n, quanLeiDaOn, playerSize);
    GrandSlamsMissing(scores, n, quanLeiDaOn, playerSize);
    if w: nat :| w < n && Slam(scores, n, quanLeiDaOn, playerSize, w) {
      forall k: nat | k < n ensures Prize(slams, n, k) == (if k == w then Won(scores, w, n) else 0) - Amount(scores, w, k) {
        OneTaker(scores, slams, n, w, k, n);
      }
      if forall l :: 0 <= l < n && l != w ==> Amount(scores, w, l) == 0 { TakesFromItself(scores, w, n); }
    } else {
      forall k: nat | k < n ensures Prize(slams, n, k) == 0 { OneTaker(scores, slams, n, n, k, n); }
    }
  }

  function TwoGuns(): Scores {
    (w: nat, l: nat) => if w == 0 && (l == 1 || l == 2) then Some(Score(1, 1)) else None
  }

  // Three players, and the first beats both others with a gun of one point each.
  lemma GrandSlamLost()
    ensures Slam(TwoGuns(), 3, true, 3, 0)
    ensures Prizes(TwoGuns(), 3) == [4, -2, -2]
    ensures Prizes(ByRule10(TwoGuns(), 3, true, 3), 3) == [8, -4, -4]
  {
    SlamOfTwoGuns();
    GrandSlamsMissing(TwoGuns(), 3, true, 3);
    hide Slam, Prize, SlamsOnly, ByRule10, TwoGuns, Losers;
    TwoGunsPrize(0);
    TwoGunsPrize(1);
    TwoGunsPrize(2);
    ThreePrizes(TwoGuns());
    ThreePrizes(ByRule10(TwoGuns(), 3, true, 3));
  }

  lemma ThreePrizes(scores: Scores)
    ensures Prizes(scores, 3) == [Prize(scores, 3, 0), Prize(scores, 3, 1), Prize(scores, 3, 2)]
  {
    hide Prize;
  }

  lemma TwoGunsPrize(k: nat)
    requires k < 3
    ensures var p := if k == 0 then 4 else -2;
      Prize(TwoGuns(), 3, k) == p && Prize(SlamsOnly(TwoGuns(), 3, true, 3), 3, k) == p
  {
    var guns, slams := TwoGuns(), SlamsOnly(TwoGuns(), 3, true, 3);
    SlamOfTwoGuns();
    TwoGunsWin();
    hide SlamsOnly, Won, Lost;
    OneTaker(guns, guns, 3, 0, k, 3);
    OneTaker(guns, slams, 3, 0, k, 3);
  }

  lemma SlamOfTwoGuns()
    ensures Slam(TwoGuns(), 3, true, 3, 0)
    ensures forall v: nat, l: nat :: v < 3 ==>
      Amount(SlamsOnly(TwoGuns(), 3, true, 3), v, l) == if v == 0 then Amount(TwoGuns(), 0, l) else 0
  {
    assert Losers(TwoGuns(), 0, 1) == 0 && Losers(TwoGuns(), 0, 2) == 1 && Losers(TwoGuns(), 0, 3) == 2;
  }

  lemma TwoGunsWin()
    ensures Won(TwoGuns(), 0, 3) == 4
  {
    assert Won(TwoGuns(), 0, 1) == 0 && Won(TwoGuns(), 0, 2) == 2;
  }

  // ---------------------------------------------------------------- the final count

  // Seat i's total over the rounds.
  function Total(ledger: seq<seq<int>>, i: nat): int
    requires forall r :: 0 <= r < |ledger| ==> i < |ledger[r]|
  {
    if ledger == [] then 0
    else Total(ledger[..|ledger| - 1], i) + ledger[|ledger| - 1][i]
  }

  predicate Uniform(ledger: seq<seq<int>>, n: nat) {
    forall r :: 0 <= r < |ledger| ==> |ledger[r]| == n
  }

  function Totals(ledger: seq<seq<int>>, n: nat): (t: seq<int>)
    requires Uniform(ledger, n)
    ensures |t| == n
  {
    seq(n, i requires 0 <= i < n => Total(ledger, i))
  }

  lemma {:induction false} SumAdds(a: seq<int>, b: seq<int>, c: seq<int>)
    requires |a| == |b| == |c| && forall i :: 0 <= i < |a| ==> c[i] == a[i] + b[i]
    ensures Sum(c) == Sum(a) + Sum(b)
  {
    if a != [] {
      var n := |a| - 1;
      SumAdds(a[..n], b[..n], c[..n]);
    }
  }

  lemma {:induction false} SumOfZeros(n: nat)
    ensures Sum(seq(n, _ => 0)) == 0
  {
    if n > 0 {
      assert seq(n, _ => 0)[..n - 1] == seq(n - 1, _ => 0);
      SumOfZeros(n - 1);
    }
  }

  // So do all rounds together: the final ranks add up to nothing.
  lemma {:induction false} FinalIsZeroSum(ledger: seq<seq<int>>, n: nat)
    requires Uniform(ledger, n)
    requires forall r :: 0 <= r < |ledger| ==> Sum(ledger[r]) == 0
    ensures Sum(Totals(ledger, n)) == 0
    decreases |ledger|
  {
    if ledger == [] {
      SumOfZeros(n);
      assert Totals(ledger, n) == seq(n, _ => 0);
    } else {
      var last := |ledger| - 1;
      FinalIsZeroSum(ledger[..last], n);
      SumAdds(Totals(ledger[..last], n), ledger[last], Totals(ledger, n));
    }
  }

  // ---------------------------------------------------------------- the loops of the code

  // The settlement loop over the winners.
  method SettleRound(scores: Scores, n: nat, quanLeiDaOn: bool, playerSize: nat) returns (prize: seq<int>)
    ensures prize == Prizes(scores, n)
  {
    prize := seq(n, _ => 0);
    var i := 0;
    while i < n
      invariant 0 <= i <= n == |prize|
      invariant forall k :: 0 <= k < n ==> prize[k] == (if k < i then Won(scores, k, n) else 0) - Lost(scores, k, i)
    {
      prize := SettleWinner(scores, n, i, quanLeiDaOn, playerSize, prize);
      i := i + 1;
    }
  }

  // One winner against its losers, in key order.
  method SettleWinner(scores: Scores, n: nat, i: nat, quanLeiDaOn: bool, playerSize: nat, before: seq<int>)
    returns (prize: seq<int>)
    requires i < n == |before|
    ensures |prize| == n
    ensures forall k :: 0 <= k < n ==>
      prize[k] == before[k] + (if k == i then Won(scores, i, n) else 0) - Amount(scores, i, k)
  {
    prize := before;
    var quanLeiDa := GrandSlam(scores, n, i, quanLeiDaOn, playerSize);
    var l := 0;
    assert Won(scores, i, l) == 0;
    while l < n
      invariant 0 <= l <= n == |prize|
      invariant forall k :: 0 <= k < n ==>
        prize[k] == before[k] + (if k == i then Won(scores, i, l) else 0) - (if k < l then Amount(scores, i, k) else 0)
    {
      match scores(i, l) {
        case None =>
        case Some(s) =>
          var p := s.points;
          if s.gun > 0 { p := p * 2; }
          if quanLeiDa { p := p * 2; }
          prize := prize[i := prize[i] + p];
          prize := prize[l := prize[l] - p];
      }
      l := l + 1;
    }
  }

  // The grand-slam flag is cleared first and the test can only clear it again: nothing is doubled
  // for a player who beats everyone.
  method GrandSlam(scores: Scores, n: nat, i: nat, quanLeiDaOn: bool, playerSize: nat) returns (quanLeiDa: bool)
    requires i < n
    ensures !quanLeiDa
  {
    quanLeiDa := false;
    var losers := CountLosers(scores, i, n);
    if quanLeiDaOn && playerSize > 2 && losers + 1 == n {
      var j := 0;
      while j < n {
        if scores(i, j).Some? && scores(i, j).value.gun == 0 {
          quanLeiDa := false;
          break;
        }
        j := j + 1;
      }
    }
  }

  method CountLosers(scores: Scores, i: nat, n: nat) returns (c: nat)
    ensures c == Losers(scores, i, n)
  {
    c := 0;
    for j := 0 to n
      invariant c == Losers(scores, i, j)
    {
      if scores(i, j).Some? { c := c + 1; }
    }
  }

  // The prizes of seat i, round by round.
  function Column(ledger: seq<seq<int>>, i: nat): (c: seq<int>)
    requires forall r :: 0 <= r < |ledger| ==> i < |ledger[r]|
    ensures |c| == |ledger|
  {
    seq(|ledger|, r requires 0 <= r < |ledger| => ledger[r][i])
  }

  lemma {:induction false} TotalIsSum(ledger: seq<seq<int>>, i: nat)
    requires forall r :: 0 <= r < |ledger| ==> i < |ledger[r]|
    ensures Total(ledger, i) == Sum(Column(ledger, i))
    decreases |ledger|
  {
    if ledger != [] {
      TotalIsSum(ledger[..|ledger| - 1], i);
      assert Column(ledger, i)[..|ledger| - 1] == Column(ledger[..|ledger| - 1], i);
    }
  }

  // The final count over all rounds and seats: a rank is the sum of the seat's prizes.
  method FinalCount(ledger: seq<seq<int>>, n: nat) returns (rank: seq<int>)
    requires Uniform(ledger, n)
    ensures rank == Totals(ledger, n)
    ensures forall i :: 0 <= i < n ==> rank[i] == Sum(Column(ledger, i))
  {
    rank := seq(n, _ => 0);
    var r := 0;
    while r < |ledger|
      invariant 0 <= r <= |ledger| && |rank| == n
      invariant forall i :: 0 <= i < n ==> rank[i] == Total(ledger[..r], i)
    {
      ghost var before := rank;
      var i := 0;
      while i < |ledger[r]|
        invariant 0 <= i <= n == |rank|
        invariant forall j :: 0 <= j < n ==> rank[j] == before[j] + (if j < i then ledger[r][j] else 0)
      {
        rank := rank[i := rank[i] + ledger[r][i]];
        i := i + 1;
      }
      assert ledger[..r + 1][..r] == ledger[..r];
      r := r + 1;
    }
    assert ledger[..|ledger|] == ledger;
    forall i: nat | i < n ensures rank[i] == Sum(Column(ledger, i)) { TotalIsSum(ledger, i); }
  }
}
