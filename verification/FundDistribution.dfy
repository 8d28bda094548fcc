/** The `DistributeFunds` proposal (packages/iov-bns-governance/src/governor.ts). */
module FundDistribution {
  import opened Results

  datatype Recipient = Recipient(address: string, weight: nat)

  datatype Amount = Amount(quantity: nat, tokenTicker: string)

  datatype Send = Send(recipient: string, amount: Amount)

  datatype DistributionError = NoRecipients

  function TotalWeight(recipients: seq<Recipient>): nat {
    if recipients == [] then 0 else TotalWeight(recipients[..|recipients| - 1]) + recipients[|recipients| - 1].weight
  }

  /** `quantity.muln(weight).divn(totalWeight)`. */
  function Share(quantity: nat, weight: nat, totalWeight: nat): nat
    requires totalWeight > 0
  {
    quantity * weight / totalWeight
  }

  function SendsOf(amount: Amount, recipients: seq<Recipient>, totalWeight: nat): (sends: seq<Send>)
    requires totalWeight > 0
    ensures |sends| == |recipients|
  {
    seq(|recipients|, i requires 0 <= i < |recipients| =>
      var share := Share(amount.quantity, recipients[i].weight, totalWeight);
      Send(recipients[i].address, Amount(share, amount.tokenTicker)))
  }

  function AllSends(balance: seq<Amount>, recipients: seq<Recipient>, totalWeight: nat): seq<Send>
    requires totalWeight > 0
  {
    if balance == [] then []
    else
      var n := |balance| - 1;
      AllSends(balance[..n], recipients, totalWeight) + SendsOf(balance[n], recipients, totalWeight)
  }

  function DistributeFunds(balance: seq<Amount>, recipients: seq<Recipient>): Result<seq<Send>, DistributionError>
    requires recipients != [] ==> TotalWeight(recipients) > 0
  {
    if recipients == [] then Err(NoRecipients)
    else Ok(AllSends(balance, recipients, TotalWeight(recipients)))
  }

  // ----- What each recipient and the fund are left with -------------------------------------------------------

  function Distributed(sends: seq<Send>): nat {
    if sends == [] then 0 else Distributed(sends[..|sends| - 1]) + sends[|sends| - 1].amount.quantity
  }

  function Weighted(recipients: seq<Recipient>): nat {
    if recipients == [] then 0
    else Weighted(recipients[..|recipients| - 1]) + if recipients[|recipients| - 1].weight > 0 then 1 else 0
  }

  /** The share is the exact proportion, rounded down. */
  lemma ShareIsProportional(quantity: nat, weight: nat, total: nat)
    requires total > 0
    ensures Share(quantity, weight, total) * total <= quantity * weight < (Share(quantity, weight, total) + 1) * total
    ensures weight == 0 ==> Share(quantity, weight, total) == 0
  {
    var n := quantity * weight;
    assert n == n / total * total + n % total;
    assert (n / total + 1) * total == n / total * total + total;
    if weight == 0 {
      assert n == 0;
    }
  }

  /** What rounding leaves over, scaled by the total weight. */
  lemma {:induction false} RoundingLoss(amount: Amount, recipients: seq<Recipient>, total: nat)
    requires total > 0
    ensures
      var given := Distributed(SendsOf(amount, recipients, total));
      given * total <= amount.quantity * TotalWeight(recipients) <= given * total + Weighted(recipients) * (total - 1)
  {
    if recipients != [] {
      var before, last := recipients[..|recipients| - 1], recipients[|recipients| - 1];
      RoundingLoss(amount, before, total);
      var sends := SendsOf(amount, recipients, total);
      assert sends[..|sends| - 1] == SendsOf(amount, before, total);
      var share := Share(amount.quantity, last.weight, total);
      ShareIsProportional(amount.quantity, last.weight, total);
      LossStep(
        amount.quantity, TotalWeight(before), last.weight, total, Distributed(SendsOf(amount, before, total)), share,
        Weighted(before));
    }
  }

  lemma LossStep(q: nat, w: nat, v: nat, total: nat, given: nat, share: nat, count: nat)
    requires total > 0
    requires given * total <= q * w <= given * total + count * (total - 1)
    requires share * total <= q * v < (share + 1) * total && (v == 0 ==> share == 0)
    ensures (given + share) * total <= q * (w + v)
    ensures q * (w + v) <= (given + share) * total + (count + if v > 0 then 1 else 0) * (total - 1)
  {
    assert q * (w + v) == q * w + q * v;
    assert (given + share) * total == given * total + share * total;
    assert (share + 1) * total == share * total + total;
    assert (count + 1) * (total - 1) == count * (total - 1) + (total - 1);
  }

  lemma DivideBound(left: int, total: nat, count: nat)
    requires total > 0 && count > 0 && 0 <= left * total <= count * (total - 1)
    ensures 0 <= left < count
  {
    assert count * (total - 1) == count * total - count;
    if left >= count {
      ProductAtLeast(left, count, total);
    }
    if left < 0 {
      ProductAtLeast(-left, 1, total);
    }
  }

  lemma ProductAtLeast(a: int, b: int, c: nat)
    requires a >= b
    ensures a * c >= b * c && -a * c == -(a * c)
  {
    assert a * c == b * c + (a - b) * c;
  }

  lemma {:induction false} SomeoneHasWeight(recipients: seq<Recipient>)
    requires TotalWeight(recipients) > 0
    ensures Weighted(recipients) > 0
  {
    if recipients[|recipients| - 1].weight == 0 {
      SomeoneHasWeight(recipients[..|recipients| - 1]);
    }
  }

  lemma {:induction false} AllSendsOfConcatenation(
    a: seq<Amount>, b: seq<Amount>, recipients: seq<Recipient>, total: nat)
    requires total > 0
    ensures AllSends(a + b, recipients, total) == AllSends(a, recipients, total) + AllSends(b, recipients, total)
  {
    if b == [] {
      assert a + b == a;
    } else {
      assert (a + b)[..|a + b| - 1] == a + b[..|b| - 1];
      AllSendsOfConcatenation(a, b[..|b| - 1], recipients, total);
    }
  }

  /** The messages of one token lie between those of the tokens before and after it. */
  lemma SendsByToken(balance: seq<Amount>, recipients: seq<Recipient>, total: nat, t: nat)
    requires total > 0 && t < |balance|
    ensures AllSends(balance, recipients, total) ==
      AllSends(balance[..t], recipients, total) + SendsOf(balance[t], recipients, total)
        + AllSends(balance[t + 1..], recipients, total)
  {
    assert balance == balance[..t] + ([balance[t]] + balance[t + 1..]);
    AllSendsOfConcatenation(balance[..t], [balance[t]] + balance[t + 1..], recipients, total);
    AllSendsOfConcatenation([balance[t]], balance[t + 1..], recipients, total);
    assert [balance[t]][..0] == [];
    assert AllSends([balance[t]], recipients, total) == SendsOf(balance[t], recipients, total);
  }

  lemma WhatIsLeft(q: nat, given: nat, total: nat, count: nat)
    requires total > 0 && count > 0
    requires given * total <= q * total <= given * total + count * (total - 1)
    ensures given <= q < given + count
  {
    assert (q - given) * total == q * total - given * total;
    DivideBound(q - given, total, count);
  }

  /** Of every token the proposal sends at most the balance, and what stays in the fund is less than one
      atomic unit per recipient with a positive weight. */
  lemma {:induction false} SplitsTheBalance(balance: seq<Amount>, recipients: seq<Recipient>, t: nat)
    requires TotalWeight(recipients) > 0 && t < |balance|
    ensures
      var sends, total := DistributeFunds(balance, recipients).value, TotalWeight(recipients);
      var ofToken := SendsOf(balance[t], recipients, total);
      && sends == AllSends(balance[..t], recipients, total) + ofToken + AllSends(balance[t + 1..], recipients, total)
      && Distributed(ofToken) <= balance[t].quantity < Distributed(ofToken) + Weighted(recipients)
  {
    var total := TotalWeight(recipients);
    SendsByToken(balance, recipients, total, t);
    RoundingLoss(balance[t], recipients, total);
    SomeoneHasWeight(recipients);
    WhatIsLeft(balance[t].quantity, Distributed(SendsOf(balance[t], recipients, total)), total, Weighted(recipients));
  }

  /** The first n tokens come with |recipients| messages each. */
  lemma {:induction false} MessageCount(balance: seq<Amount>, recipients: seq<Recipient>, total: nat)
    requires total > 0
    ensures |AllSends(balance, recipients, total)| == |balance| * |recipients|
  {
    if balance != [] {
      MessageCount(balance[..|balance| - 1], recipients, total);
      OneMoreRow(|balance| - 1, |recipients|);
    }
  }

  lemma OneMoreRow(rows: nat, width: nat)
    ensures (rows + 1) * width == rows * width + width
  {
  }

  lemma {:induction false} MessageAt(
    balance: seq<Amount>, recipients: seq<Recipient>, total: nat, t: nat, k: nat, at: nat)
    requires total > 0 && t < |balance| && k < |recipients| && at == t * |recipients| + k
    ensures at < |AllSends(balance, recipients, total)|
    ensures AllSends(balance, recipients, total)[at] == SendsOf(balance[t], recipients, total)[k]
  {
    var n := |balance| - 1;
    var before, last := AllSends(balance[..n], recipients, total), SendsOf(balance[n], recipients, total);
    MessageCount(balance[..n], recipients, total);
    if t < n {
      MessageAt(balance[..n], recipients, total, t, k, at);
      assert (before + last)[at] == before[at];
    } else {
      assert (before + last)[at] == last[at - |before|];
    }
  }

  /** The proposal has one message per token and recipient, token by token and in the order of the recipients.
      Each goes to its recipient and carries the exact proportion of the token, rounded down. */
  lemma {:induction false} MessagesOfDistribution(balance: seq<Amount>, recipients: seq<Recipient>, t: nat, k: nat)
    requires TotalWeight(recipients) > 0 && t < |balance| && k < |recipients|
    ensures DistributeFunds(balance, recipients).Ok?
    ensures
      var sends, total := DistributeFunds(balance, recipients).value, TotalWeight(recipients);
      var at := t * |recipients| + k;
      && |sends| == |balance| * |recipients| && at < |sends|
      && sends[at].recipient == recipients[k].address
      && sends[at].amount.tokenTicker == balance[t].tokenTicker
      && sends[at].amount.quantity * total <= balance[t].quantity * recipients[k].weight
      && balance[t].quantity * recipients[k].weight < (sends[at].amount.quantity + 1) * total
  {
    var total := TotalWeight(recipients);
    MessageCount(balance, recipients, total);
    MessageAt(balance, recipients, total, t, k, t * |recipients| + k);
    ShareIsProportional(balance[t].quantity, recipients[k].weight, total);
  }

  /** The total is the sum of all weights. */
  lemma {:induction false} TotalOfConcatenation(a: seq<Recipient>, b: seq<Recipient>)
    ensures TotalWeight(a + b) == TotalWeight(a) + TotalWeight(b)
    ensures |a| == 1 ==> TotalWeight(a) == a[0].weight
    decreases |a| + |b|
  {
    if b == [] {
      assert a + b == a;
      assert |a| == 1 ==> a[..0] == [];
    } else {
      assert (a + b)[..|a + b| - 1] == a + b[..|b| - 1];
      TotalOfConcatenation(a, b[..|b| - 1]);
    }
  }

  /** Without recipients nothing can be distributed. */
  lemma RefusedIff(balance: seq<Amount>, recipients: seq<Recipient>)
    requires recipients != [] ==> TotalWeight(recipients) > 0
    ensures DistributeFunds(balance, recipients) == Err(NoRecipients) <==> |recipients| == 0
  {
  }
}
