/** The admin dashboard (routers/dashboard.py): counts over the tables and
    the list of overdue loans. Nothing is written. */
module Dashboard {
  import opened Query
  import opened Models
  import opened Loans

  datatype DashboardStats = DashboardStats(
    totalBooks: nat, borrowedBooks: nat, overdueBooks: nat, activeUsers: nat)

  /** An unreturned loan due strictly before `today`. A null due date never
      compares as earlier, so such a loan is not overdue. */
  function OverdueOn(today: int): Loan -> bool {
    (l: Loan) => !l.returned && l.dueDate.Some? && l.dueDate.value < today
  }

  /** `get_overdue_loans`: exactly the overdue loans, in table order. */
  function GetOverdueLoans(loans: seq<Loan>, today: int): (r: seq<Loan>)
    ensures forall l :: l in r <==> l in loans && !l.returned && l.dueDate.Some? && l.dueDate.value < today
  {
    Where(loans, OverdueOn(today))
  }

  /** `get_dashboard_stats`: every book and every user; the unreturned loans
      whatever their status; the overdue ones among them, which are exactly
      those GetOverdueLoans lists. */
  function GetDashboardStats(books: seq<Book>, users: seq<User>, loans: seq<Loan>, today: int)
    : (s: DashboardStats)
    ensures s.totalBooks == |books| && s.activeUsers == |users|
    ensures s.borrowedBooks == |GetActiveLoans(loans)|
    ensures s.overdueBooks == |GetOverdueLoans(loans, today)|
    ensures s.overdueBooks <= s.borrowedBooks
  {
    CountMonotone(loans, OverdueOn(today), IsUnreturned);
    DashboardStats(|books|, Count(loans, IsUnreturned), Count(loans, OverdueOn(today)), |users|)
  }

  /** An unreturned loan is overdue exactly when returning it today would
      cost a fine. */
  lemma OverdueIffFined(l: Loan, today: int)
    requires !l.returned
    ensures OverdueOn(today)(l) <==> l.dueDate.Some? && Fine(today, l.dueDate.value) > 0
  {
  }
}
