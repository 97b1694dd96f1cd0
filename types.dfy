/** types.ts: the category enum and the per-category streak record. */
module Types {
  import opened Options

  datatype CategoryType = Development | Nutrition | Physical

  /** The enum's string values (types.ts:2-4); each names one category. */
  function Label(c: CategoryType): (s: string)
    ensures CategoryOf(s) == Some(c)
  {
    match c
    case Development => "Desenvolvimento"
    case Nutrition => "Alimentação"
    case Physical => "Físico"
  }

  /** The category whose enum value is `s`, if any. */
  function CategoryOf(s: string): Option<CategoryType> {
    if s == "Desenvolvimento" then Some(Development)
    else if s == "Alimentação" then Some(Nutrition)
    else if s == "Físico" then Some(Physical)
    else None
  }

  /**
   * StreakData (types.ts:7-14). `lastCompletedDate` and the `history` entries
   * are day strings; the enum field `type` is called `category` here.
   */
  datatype StreakData = StreakData(
    id: string,
    category: CategoryType,
    currentStreak: nat,
    bestStreak: nat,
    lastCompletedDate: Option<string>,
    history: seq<string>)
}
