/** `MemberService`: the checked-out counter and the validity check. */
module Members {
  import opened Outcomes
  import opened Entities

  const NullMemberMessage := "member cannot be null"

  /** The count after `getBooksCheckedOut() + 1` in Java `int` arithmetic. */
  function Incremented(count: int32): (r: int32)
    ensures count < INT32_MAX ==> r as int == count as int + 1
    ensures count == INT32_MAX ==> r == INT32_MIN
  {
    Wrap32(count as int + 1)
  }

  /** The count after `Math.max(0, getBooksCheckedOut() - 1)` in Java `int` arithmetic. */
  function Decremented(count: int32): (r: int32)
    ensures r >= 0
    ensures count > 0 ==> r as int == count as int - 1
    ensures INT32_MIN < count <= 0 ==> r == 0
    ensures count == INT32_MIN ==> r == INT32_MAX
  {
    var less := Wrap32(count as int - 1);
    if 0 > less then 0 else less
  }

  /** Decrementing right after incrementing gives back any non-negative count, the largest included. */
  lemma DecrementUndoesIncrement(count: int32)
    requires count >= 0
    ensures Decremented(Incremented(count)) == count
  {
  }

  /** Incrementing right after decrementing gives back any positive count. */
  lemma IncrementUndoesDecrement(count: int32)
    requires count > 0
    ensures Incremented(Decremented(count)) == count
  {
  }

  /** `n` successive decrements. */
  function DecrementedTimes(count: int32, n: nat): int32
  {
    if n == 0 then count else Decremented(DecrementedTimes(count, n - 1))
  }

  /** Decrementing `n` times from a non-negative count ends at `max(0, count - n)`. */
  lemma {:induction false} RepeatedDecrementsFloorAtZero(count: int32, n: nat)
    requires count >= 0
    ensures DecrementedTimes(count, n) as int == if count as int >= n then count as int - n else 0
  {
    if n > 0 {
      RepeatedDecrementsFloorAtZero(count, n - 1);
    }
  }

  /** The member repository, seen only through its `save` calls, which it records in order. */
  class MemberRepository {
    var saved: seq<MemberRecord>

    constructor ()
      ensures saved == []
    {
      saved := [];
    }

    /** `save`: persists the member's current fields and hands the same member back. */
    method Save(member: Member) returns (r: Member)
      modifies this
      ensures r == member
      ensures saved == old(saved) + [member.Record()]
    {
      saved := saved + [member.Record()];
      r := member;
    }
  }

  class MemberService {
    const repository: MemberRepository

    constructor (repository: MemberRepository)
      ensures this.repository == repository
    {
      this.repository := repository;
    }

    /** `isValid`: a member that is present with an id and a status. */
    predicate IsValid(member: Member?)
      reads member
      ensures IsValid(member) ==> member != null
    {
      member != null && member.id.Some? && member.status.Some?
    }

    /**
     * `incrementCheckoutCount`: rejects a null member before touching anything; otherwise
     * raises the count by one (Java `int`), saves the member once and returns it.
     */
    method IncrementCheckoutCount(member: Member?) returns (r: Result<Member>)
      modifies member, repository
      ensures member == null ==> r == Err(IllegalArgument(NullMemberMessage))
      ensures member == null ==> repository.saved == old(repository.saved)
      ensures member != null ==> r == Ok(member)
      ensures member != null ==> member.Record() == old(member.Record()).(booksCheckedOut := Incremented(old(member.booksCheckedOut)))
      ensures member != null ==> repository.saved == old(repository.saved) + [member.Record()]
      ensures IsValid(member) == old(IsValid(member))
    {
      if member == null {
        return Err(IllegalArgument(NullMemberMessage));
      }
      member.booksCheckedOut := Incremented(member.booksCheckedOut);
      var saved := repository.Save(member);
      r := Ok(saved);
    }

    /**
     * `decrementCheckoutCount`: rejects a null member before touching anything; otherwise
     * lowers the count by one, floored at zero, saves the member once and returns it.
     */
    method DecrementCheckoutCount(member: Member?) returns (r: Result<Member>)
      modifies member, repository
      ensures member == null ==> r == Err(IllegalArgument(NullMemberMessage))
      ensures member == null ==> repository.saved == old(repository.saved)
      ensures member != null ==> r == Ok(member)
      ensures member != null ==> member.Record() == old(member.Record()).(booksCheckedOut := Decremented(old(member.booksCheckedOut)))
      ensures member != null ==> repository.saved == old(repository.saved) + [member.Record()]
      ensures IsValid(member) == old(IsValid(member))
    {
      if member == null {
        return Err(IllegalArgument(NullMemberMessage));
      }
      member.booksCheckedOut := Decremented(member.booksCheckedOut);
      var saved := repository.Save(member);
      r := Ok(saved);
    }

    /** `save`: a pass-through to the repository. */
    method Save(member: Member) returns (r: Member)
      modifies repository
      ensures r == member
      ensures repository.saved == old(repository.saved) + [member.Record()]
    {
      r := repository.Save(member);
    }
  }

  /** `isValid` rejects a missing member, a missing id and a missing status, and accepts the rest. */
  lemma IsValidCases(service: MemberService, member: Member?)
    ensures member == null ==> !service.IsValid(member)
    ensures member != null && member.id.None? ==> !service.IsValid(member)
    ensures member != null && member.status.None? ==> !service.IsValid(member)
    ensures member != null && member.id.Some? && member.status.Some? ==> service.IsValid(member)
  {
  }
}
