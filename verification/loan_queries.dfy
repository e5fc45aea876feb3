/**
 * The derived queries of the loan repository that the services call
 * (countByReturnDateIsNull, countByBookId, countByMemberIdAndReturnDateIsNotNull,
 * ...). Each selects a set of loan ids; a combined query such as
 * countByBookIdAndReturnDateIsNull is an intersection, and a count is a
 * cardinality.
 */
module LoanQueries {
  import opened Wrappers
  import opened Entities

  type Loans = map<Id, Loan>

  /** Loans whose returnDate is null: the copies still out. */
  function Active(loans: Loans): set<Id> {
    set id | id in loans && loans[id].returnDate.None?
  }

  /** Loans whose returnDate is set. */
  function Returned(loans: Loans): set<Id> {
    set id | id in loans && loans[id].returnDate.Some?
  }

  /** `...ByBookId`: the loans of one book. */
  function OfBook(loans: Loans, bookId: Id): set<Id> {
    set id | id in loans && loans[id].bookId == bookId
  }

  /** `...ByMemberId`: the loans of one member. */
  function OfMember(loans: Loans, memberId: Id): set<Id> {
    set id | id in loans && loans[id].memberId == memberId
  }

  /**
   * Every loan of a selection is either active or returned, never both,
   * so the two narrowed counts add up to the selection's count.
   */
  lemma ActiveReturnedSplit(loans: Loans, s: set<Id>)
    requires s <= loans.Keys
    ensures |s * Active(loans)| + |s * Returned(loans)| == |s|
  {
    var a := s * Active(loans);
    var d := s * Returned(loans);
    assert a * d == {};
    forall id | id in s ensures id in a + d {
      if loans[id].returnDate.None? {
        assert id in a;
      } else {
        assert id in d;
      }
    }
    assert a + d == s;
  }

  /** countByReturnDateIsNull + countByReturnDateIsNotNull == count. */
  lemma ActiveReturnedPartition(loans: Loans)
    ensures |Active(loans)| + |Returned(loans)| == |loans|
  {
    ActiveReturnedSplit(loans, loans.Keys);
    assert loans.Keys * Active(loans) == Active(loans);
    assert loans.Keys * Returned(loans) == Returned(loans);
  }

  /** Storing a new active loan adds it to its book's active loans and nowhere else. */
  lemma AddActiveLoan(loans: Loans, loanId: Id, loan: Loan, bookId: Id)
    requires loanId !in loans
    requires loan.returnDate.None?
    ensures |OfBook(loans[loanId := loan], bookId) * Active(loans[loanId := loan])| ==
            |OfBook(loans, bookId) * Active(loans)| + (if loan.bookId == bookId then 1 else 0)
  {
    var loans' := loans[loanId := loan];
    var before := OfBook(loans, bookId) * Active(loans);
    var now := OfBook(loans', bookId) * Active(loans');
    var added: set<Id> := if loan.bookId == bookId then {loanId} else {};
    forall id ensures id in now <==> id in before + added {
      if id != loanId && id in loans {
        assert loans'[id] == loans[id];
      }
    }
    assert now == before + added;
    assert loanId !in before;
  }

  /** Marking an active loan returned removes it from its book's active loans and nowhere else. */
  lemma CloseActiveLoan(loans: Loans, loanId: Id, today: Day, bookId: Id)
    requires loanId in loans
    requires loans[loanId].returnDate.None?
    ensures var loans' := loans[loanId := loans[loanId].(returnDate := Some(today))];
            |OfBook(loans', bookId) * Active(loans')| ==
            |OfBook(loans, bookId) * Active(loans)| - (if loans[loanId].bookId == bookId then 1 else 0)
  {
    var loans' := loans[loanId := loans[loanId].(returnDate := Some(today))];
    var before := OfBook(loans, bookId) * Active(loans);
    var now := OfBook(loans', bookId) * Active(loans');
    var removed: set<Id> := if loans[loanId].bookId == bookId then {loanId} else {};
    forall id ensures id in now <==> id in before - removed {
      if id != loanId && id in loans {
        assert loans'[id] == loans[id];
      }
    }
    assert now == before - removed;
    assert removed <= before;
  }
}
