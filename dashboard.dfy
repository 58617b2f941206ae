/** The merchant's voucher table (app/dashboard/page.tsx): the status badge
    of each voucher, the Discount and Usage captions, and the list of
    vouchers that loading and deleting replace. */
module Dashboard {
  import opened Wrappers
  import opened Js

  datatype DiscountType = Percentage | Fixed

  /** A voucher as the server lists it. Dates are already read by
      `new Date(text)`, so either may be the Invalid Date. */
  datatype Voucher = Voucher(
    id: string,
    name: string,
    voucherCode: string,
    discountType: DiscountType,
    discountValue: real,
    minCartValue: Option<real>,
    maxDiscount: Option<real>,
    activationDate: Date,
    expiryDate: Date,
    usageCount: int,
    usageLimit: int,
    isActive: bool,
    totalUsageCount: int)

  // ---------------------------------------------------------------------
  // Status badge

  datatype Label = Inactive | Scheduled | Expired | Exhausted | Active

  /** The badge styles the table uses. */
  datatype Variant = Destructive | Secondary | Default

  /** The badge: its label (`tag`, since `label` is a Dafny keyword) and style. */
  datatype Status = Status(tag: Label, variant: Variant)

  /** The badge for `v` at time `now`; the first matching check wins. */
  function GetVoucherStatus(v: Voucher, now: int): (s: Status)
    ensures s.tag == Inactive <==> !v.isActive
    ensures s.tag == Active <==>
              v.isActive && !Before(now, v.activationDate) && !After(now, v.expiryDate) &&
              v.usageCount < v.usageLimit
    ensures s.variant == Destructive <==> s.tag in {Inactive, Expired, Exhausted}
    ensures s.variant == Secondary <==> s.tag == Scheduled
    ensures s.variant == Default <==> s.tag == Active
  {
    if !v.isActive then Status(Inactive, Destructive)
    else if Before(now, v.activationDate) then Status(Scheduled, Secondary)
    else if After(now, v.expiryDate) then Status(Expired, Destructive)
    else if v.usageCount >= v.usageLimit then Status(Exhausted, Destructive)
    else Status(Active, Default)
  }

  /** An inactive voucher is Inactive whatever its dates and counts. */
  lemma InactiveOverridesAll(v: Voucher, now: int)
    requires !v.isActive
    ensures GetVoucherStatus(v, now) == Status(Inactive, Destructive)
  {
  }

  /** Before activation an active voucher is Scheduled, even when it is
      also used up or its expiry lies before its activation. */
  lemma ScheduledBeforeActivation(v: Voucher, now: int)
    requires v.isActive && v.activationDate.Valid? && now < v.activationDate.ms
    ensures GetVoucherStatus(v, now) == Status(Scheduled, Secondary)
  {
  }

  /** Once activated, a voucher is Expired exactly when `now` is strictly
      past its expiry: at the expiry instant itself it is not. */
  lemma ExpiredStrictlyAfterExpiry(v: Voucher, now: int)
    requires v.isActive && v.activationDate.Valid? && v.activationDate.ms <= now
    requires v.expiryDate.Valid?
    ensures GetVoucherStatus(v, now).tag == Expired <==> now > v.expiryDate.ms
    ensures GetVoucherStatus(v, now).tag == Expired ==> GetVoucherStatus(v, now).variant == Destructive
  {
  }

  /** Inside its window a voucher whose usage count has reached the limit is
      Exhausted: the comparison is `>=`, so equality already exhausts it. */
  lemma ExhaustedAtLimit(v: Voucher, now: int)
    requires v.isActive && !Before(now, v.activationDate) && !After(now, v.expiryDate)
    requires v.usageCount >= v.usageLimit
    ensures GetVoucherStatus(v, now) == Status(Exhausted, Destructive)
  {
  }

  /** With readable dates, Active means: active, within
      [activationDate, expiryDate] inclusive, and not used up. */
  lemma ActiveExactlyInWindow(v: Voucher, now: int)
    requires v.activationDate.Valid? && v.expiryDate.Valid?
    ensures GetVoucherStatus(v, now).tag == Active <==>
              v.isActive && v.activationDate.ms <= now <= v.expiryDate.ms &&
              v.usageCount < v.usageLimit
  {
  }

  /** An Invalid Date compares false with everything, so a voucher whose
      activation date is unreadable is never Scheduled and one whose expiry
      date is unreadable is never Expired. */
  lemma InvalidDatesNeverDecide(v: Voucher, now: int)
    ensures v.activationDate.Invalid? ==> GetVoucherStatus(v, now).tag != Scheduled
    ensures v.expiryDate.Invalid? ==> GetVoucherStatus(v, now).tag != Expired
  {
  }

  /** Where a label sits in a voucher's life: Scheduled, then Active or
      Exhausted, then Expired. Inactive stands apart. */
  function Phase(l: Label): nat {
    match l
    case Scheduled => 0
    case Active => 1
    case Exhausted => 1
    case Expired => 2
    case Inactive => 3
  }

  /** As time passes a voucher's status only moves forward through its
      life, and two instants in the same phase show the same badge. */
  lemma StatusMovesForward(v: Voucher, earlier: int, later: int)
    requires earlier <= later
    ensures Phase(GetVoucherStatus(v, earlier).tag) <= Phase(GetVoucherStatus(v, later).tag)
    ensures Phase(GetVoucherStatus(v, earlier).tag) == Phase(GetVoucherStatus(v, later).tag) ==>
              GetVoucherStatus(v, earlier) == GetVoucherStatus(v, later)
  {
  }

  // ---------------------------------------------------------------------
  // Captions

  /** A table cell as React renders its children: text, and numbers that
      React writes out with JavaScript's number formatting. */
  datatype Piece = Text(text: string) | Num(value: real)

  function MaxNote(m: real): seq<Piece> {
    [Text(" "), Text("(max: $"), Num(m), Text(")")]
  }

  /** The Discount cell as the page writes it. `maxDiscount && note` yields
      the number 0 itself when maxDiscount is 0, and React renders that 0. */
  function DiscountCellAsWritten(v: Voucher): (c: seq<Piece>)
    ensures |c| >= 2 && c[0] == Num(v.discountValue)
    ensures c[1] == Text(if v.discountType == Percentage then "%" else " USD")
    ensures v.maxDiscount.None? ==> |c| == 2
    ensures v.maxDiscount == Some(0.0) ==> c[2..] == [Num(0.0)]
    ensures v.maxDiscount.Some? && v.maxDiscount.value != 0.0 ==> c[2..] == MaxNote(v.maxDiscount.value)
  {
    [Num(v.discountValue), Text(if v.discountType == Percentage then "%" else " USD")] +
    match v.maxDiscount
    case None => []
    case Some(m) => if m == 0.0 then [Num(0.0)] else MaxNote(m)
  }

  /** The Discount cell as intended: the value with its unit, and the max
      note only for a maxDiscount that is present and not zero. */
  function DiscountCell(v: Voucher): (c: seq<Piece>)
    ensures |c| >= 2 && c[0] == Num(v.discountValue)
    ensures c[1] == Text(if v.discountType == Percentage then "%" else " USD")
    ensures |c| > 2 <==> v.maxDiscount.Some? && v.maxDiscount.value != 0.0
    ensures |c| > 2 ==> c[2..] == MaxNote(v.maxDiscount.value)
    ensures Num(0.0) in c ==> v.discountValue == 0.0 || v.maxDiscount == Some(0.0)
  {
    var unit := if v.discountType == Percentage then "%" else " USD";
    var head := [Num(v.discountValue), Text(unit)];
    if v.maxDiscount.Some? && v.maxDiscount.value != 0.0 then
      var c := head + MaxNote(v.maxDiscount.value);
      assert c[1] == head[1];
      c
    else
      head
  }

  /** The page and the intended cell differ exactly by a trailing 0 when
      maxDiscount is 0. */
  lemma DiscountCellStrayZero(v: Voucher)
    ensures DiscountCellAsWritten(v) ==
              if v.maxDiscount == Some(0.0) then DiscountCell(v) + [Num(0.0)] else DiscountCell(v)
  {
  }

  /** The input that shows it: a 10% voucher with maxDiscount 0 renders
      "10", "%", "0", which reads as "10%0". */
  lemma StrayZeroExample()
    ensures var v := Voucher("v1", "Sale", "SALE10", Percentage, 10.0, None, Some(0.0),
                             Valid(0), Valid(1), 0, 5, true, 0);
            DiscountCellAsWritten(v) == [Num(10.0), Text("%"), Num(0.0)] &&
            DiscountCell(v) == [Num(10.0), Text("%")]
  {
  }

  /** The Usage cell: totalUsageCount over usageLimit. */
  function UsageCell(v: Voucher): (c: seq<Piece>)
    ensures |c| == 3 && c[1] == Text("/")
    ensures c[0] == Num(v.totalUsageCount as real) && c[2] == Num(v.usageLimit as real)
  {
    [Num(v.totalUsageCount as real), Text("/"), Num(v.usageLimit as real)]
  }

  /** The Usage cell and the Exhausted badge read different counters: the
      cell ignores usageCount and the badge ignores totalUsageCount. */
  lemma UsageCellAndStatusReadDifferentCounts(v: Voucher, now: int, usage: int, total: int)
    ensures UsageCell(v.(usageCount := usage)) == UsageCell(v)
    ensures GetVoucherStatus(v.(totalUsageCount := total), now) == GetVoucherStatus(v, now)
  {
  }

  /** So a voucher can show "0/5" in its Usage cell and still be Exhausted. */
  lemma ExhaustedWhileUsageCellShowsRoom()
    ensures var v := Voucher("v2", "Sale", "SALE5", Fixed, 5.0, None, None,
                             Valid(0), Valid(100), 5, 5, true, 0);
            UsageCell(v) == [Num(0.0), Text("/"), Num(5.0)] &&
            GetVoucherStatus(v, 50) == Status(Exhausted, Destructive)
  {
  }

  // ---------------------------------------------------------------------
  // The list after a delete

  /** `vouchers.filter(voucher => voucher._id !== id)`. */
  function WithoutId(vs: seq<Voucher>, id: string): (r: seq<Voucher>)
    ensures |r| <= |vs|
    ensures forall k :: 0 <= k < |r| ==> r[k].id != id
    ensures forall v :: v in r <==> v in vs && v.id != id
  {
    if vs == [] then []
    else (if vs[0].id != id then [vs[0]] else []) + WithoutId(vs[1..], id)
  }

  lemma {:induction false} WithoutIdAppend(a: seq<Voucher>, b: seq<Voucher>, id: string)
    ensures WithoutId(a + b, id) == WithoutId(a, id) + WithoutId(b, id)
  {
    if a == [] {
      assert a + b == b;
    } else {
      assert (a + b)[1..] == a[1..] + b;
      WithoutIdAppend(a[1..], b, id);
    }
  }

  /** Where the entry at index i of `vs` lands after the filter: after
      every kept entry before it. */
  function Position(vs: seq<Voucher>, id: string, i: nat): nat
    requires i <= |vs|
  {
    |WithoutId(vs[..i], id)|
  }

  lemma WithoutIdSingle(v: Voucher, id: string)
    ensures WithoutId([v], id) == if v.id != id then [v] else []
  {
    assert [v][1..] == [];
  }

  /** The filter of `vs` is the filter of the entries before i, of entry i,
      and of the entries after it, in that order. */
  lemma WithoutIdSplit(vs: seq<Voucher>, id: string, i: nat)
    requires i < |vs|
    ensures WithoutId(vs, id) ==
              WithoutId(vs[..i], id) + WithoutId([vs[i]], id) + WithoutId(vs[i + 1..], id)
  {
    assert vs == vs[..i] + [vs[i]] + vs[i + 1..];
    WithoutIdAppend(vs[..i] + [vs[i]], vs[i + 1..], id);
    WithoutIdAppend(vs[..i], [vs[i]], id);
  }

  /** Every entry whose id differs is kept, at its Position, and kept
      entries stay in their original order. */
  lemma WithoutIdKeepsOrder(vs: seq<Voucher>, id: string, i: nat, j: nat)
    requires i < j <= |vs| && vs[i].id != id
    ensures Position(vs, id, i) < |WithoutId(vs, id)|
    ensures WithoutId(vs, id)[Position(vs, id, i)] == vs[i]
    ensures Position(vs, id, i) < Position(vs, id, j)
  {
    WithoutIdSingle(vs[i], id);
    WithoutIdSplit(vs, id, i);
    var prefix := vs[..j];
    assert prefix[..i] == vs[..i] && prefix[i] == vs[i];
    WithoutIdSplit(prefix, id, i);
  }

  /** Each voucher keeps its multiplicity, unless it carries the id. */
  lemma {:induction false} WithoutIdCounts(vs: seq<Voucher>, id: string, v: Voucher)
    ensures multiset(WithoutId(vs, id))[v] == if v.id == id then 0 else multiset(vs)[v]
  {
    if vs != [] {
      assert vs == [vs[0]] + vs[1..];
      WithoutIdCounts(vs[1..], id, v);
    }
  }

  /** Deleting an id that no entry carries changes nothing. */
  lemma {:induction false} WithoutAbsentId(vs: seq<Voucher>, id: string)
    requires forall k :: 0 <= k < |vs| ==> vs[k].id != id
    ensures WithoutId(vs, id) == vs
  {
    if vs != [] {
      WithoutAbsentId(vs[1..], id);
    }
  }

  /** Deleting the same id twice is deleting it once. */
  lemma WithoutIdIdempotent(vs: seq<Voucher>, id: string)
    ensures WithoutId(WithoutId(vs, id), id) == WithoutId(vs, id)
  {
    WithoutAbsentId(WithoutId(vs, id), id);
  }

  /** The page's `vouchers` state and its loading flag. */
  class VoucherTable {
    var vouchers: seq<Voucher>
    var isLoading: bool

    constructor ()
      ensures vouchers == [] && isLoading
    {
      vouchers := [];
      isLoading := true;
    }

    /** The list fetch: on success the list becomes the server's data, on
        any failure it stays as it was; loading ends either way. */
    method ReceiveVouchers(ok: bool, data: seq<Voucher>)
      modifies this
      ensures vouchers == if ok then data else old(vouchers)
      ensures !isLoading
    {
      if ok {
        vouchers := data;
      }
      isLoading := false;
    }

    /** The delete: after an ok response every entry with this id is
        dropped and the rest keep their order; otherwise nothing changes. */
    method DeleteVoucher(id: string, ok: bool)
      modifies this`vouchers
      ensures vouchers == if ok then WithoutId(old(vouchers), id) else old(vouchers)
      ensures ok ==> forall k :: 0 <= k < |vouchers| ==> vouchers[k].id != id
      ensures |vouchers| <= |old(vouchers)|
    {
      if ok {
        vouchers := WithoutId(vouchers, id);
      }
    }
  }
}
