/** The default due date of a new loan: today plus the configured loan period. */
module Utils {

  /** `dueDays` is the DEFAULT_DUE_DAYS setting, in days. A period of zero
      days makes a loan due on its issue day, a positive one strictly later,
      and only a negative one before. */
  function ConfigureDueDate(today: int, dueDays: int): (due: int)
    ensures due == today <==> dueDays == 0
    ensures due > today <==> dueDays > 0
    ensures due < today <==> dueDays < 0
  {
    today + dueDays
  }

  /** The offset is the same every day: issuing `k` days later makes the loan
      due exactly `k` days later. */
  lemma DueDateShifts(today: int, dueDays: int, k: int)
    ensures ConfigureDueDate(today + k, dueDays) == ConfigureDueDate(today, dueDays) + k
  {
  }
}
