/** The Fine record: a non-negative amount in cents, default 0, and a nullable `paid_at`. */
module FineModel {
  import opened Wrappers
  import opened ErrorUtil
  import opened Tables

  const DefaultAmount := 0

  /**
   * `amount` is a DECIMAL(10, 2) of currency units, held here exactly as
   * integer cents. `member_id` is a nullable foreign key; transactions are
   * never deleted, so `transaction_id` always names its loan.
   */
  datatype Fine = Fine(
    id: Id,
    transactionId: Id,
    memberId: Ref,
    amount: int,
    paidAt: Option<int>)

  function FineKey(f: Fine): Id { f.id }

  /** `paid_at` set means paid; null means still owed. */
  predicate IsPaid(f: Fine) {
    f.paidAt.Some?
  }

  /** The `min: 0` validator on `amount`. */
  predicate Valid(f: Fine) {
    f.amount >= 0
  }

  /** `Fine.create(data)` before the INSERT: the amount defaults to 0, `paid_at` to null. */
  function Create(id: Id, transactionId: Id, memberId: Ref, amount: Option<int>): (r: Result<Fine>)
    ensures r.Ok? <==> amount.GetOr(DefaultAmount) >= 0
    ensures r.Ok? ==> r.value == Fine(id, transactionId, memberId, amount.GetOr(0), None) && !IsPaid(r.value)
  {
    var f := Fine(id, transactionId, memberId, amount.GetOr(DefaultAmount), None);
    if Valid(f) then Ok(f) else Err(ValidationError([ValidatorViolation("min", "amount")]))
  }
}
