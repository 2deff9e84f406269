/**
 * The entities of the entry rules: sexes, categories, placements, team roles,
 * roster rows (`members` sheet) and the entry records the entry form produces.
 */
module Entries {
  import opened Wrappers

  /** `男子` / `女子`: the only values the roster form offers and the entry screen filters on. */
  datatype Sex = Male | Female

  function SexLabel(s: Sex): string
  {
    match s
    case Male => "男子"
    case Female => "女子"
  }

  /** The four competition categories, in the order the limits and the tallies list them. */
  datatype Category = IndKata | IndKumite | TeamKata | TeamKumite

  /** The key of a category in the `limits` setting. */
  function CategoryKey(c: Category): string
  {
    match c
    case IndKata => "ind_kata"
    case IndKumite => "ind_kumite"
    case TeamKata => "team_kata"
    case TeamKumite => "team_kumite"
  }

  /** The label of a category in a violation message. */
  function CategoryLabel(c: Category): string
  {
    match c
    case IndKata => "個人形"
    case IndKumite => "個人組手"
    case TeamKata => "団体形"
    case TeamKumite => "団体組手"
  }

  /** The two tallies kept per sex and category: regulars (`reg`) and alternates (`sub`). */
  datatype Slot = Reg | Sub

  function SlotKey(k: Slot): string
  {
    match k
    case Reg => "reg"
    case Sub => "sub"
  }

  /** An individual entry's type: `一般` (regular), `シード` (seed) or `補欠` (alternate). */
  datatype Placement = General | Seed | Alternate

  function PlacementLabel(p: Placement): string
  {
    match p
    case General => "一般"
    case Seed => "シード"
    case Alternate => "補欠"
  }

  /** A team entry's role: `正選手` (regular) or `補欠` (reserve). */
  datatype Role = Regular | Reserve

  function RoleLabel(r: Role): string
  {
    match r
    case Regular => "正選手"
    case Reserve => "補欠"
  }

  /**
   * The stored individual type as the entry form reads it: one of the three
   * labels decodes to its placement, anything else falls back to `一般`.
   */
  function DecodePlacement(stored: string): (p: Placement)
    ensures stored == PlacementLabel(p) || (p == General && stored !in {"一般", "シード", "補欠"})
    ensures stored in {"一般", "シード", "補欠"} ==> PlacementLabel(p) == stored
  {
    if stored == "シード" then Seed
    else if stored == "補欠" then Alternate
    else General
  }

  /** The team-role radio's initial choice: `正選手` only when that is what is stored, otherwise `補欠`. */
  function StoredRole(stored: string): (r: Role)
    ensures r == Regular <==> stored == "正選手"
  {
    if stored == "正選手" then Regular else Reserve
  }

  /**
   * One row of the roster (`members` sheet): identity columns and the
   * `last_*` columns in which the entry form keeps the last saved entry.
   */
  datatype Member = Member(
    school: string, name: string, sex: Sex, grade: string, dob: string, jkfNo: string,
    lastTeamKataChk: bool, lastTeamKataRole: string,
    lastTeamKumiChk: bool, lastTeamKumiRole: string,
    lastKataChk: bool, lastKataType: string, lastKataRank: string,
    lastKumiChk: bool, lastKumiType: string, lastKumiRank: string)

  /**
   * An athlete's entry as the form hands it to validation and to the sheet
   * writer; an unchecked individual category has no type (`None`).
   */
  datatype Entry = Entry(
    name: string, sex: Sex, grade: string, dob: string, jkfNo: string,
    teamKataChk: bool, teamKataRole: Role,
    teamKumiChk: bool, teamKumiRole: Role,
    kataType: Option<Placement>, kataRank: string,
    kumiteType: Option<Placement>, kumiteRank: string)

  /** The `last_*` values the form writes back to an athlete's roster row when the entry is saved. */
  datatype Update = Update(
    teamKataChk: bool, teamKataRole: Role,
    teamKumiChk: bool, teamKumiRole: Role,
    kataChk: bool, kataType: Placement, kataRank: string,
    kumiChk: bool, kumiType: Placement, kumiRank: string)

  /** Overwrites exactly the ten `last_*` columns of a roster row with an update. */
  function ApplyUpdate(m: Member, u: Update): (m': Member)
    ensures m'.school == m.school && m'.name == m.name && m'.sex == m.sex
    ensures m'.grade == m.grade && m'.dob == m.dob && m'.jkfNo == m.jkfNo
    ensures m'.lastTeamKataChk == u.teamKataChk && m'.lastTeamKumiChk == u.teamKumiChk
    ensures StoredRole(m'.lastTeamKataRole) == u.teamKataRole
    ensures StoredRole(m'.lastTeamKumiRole) == u.teamKumiRole
    ensures m'.lastKataChk == u.kataChk && m'.lastKumiChk == u.kumiChk
    ensures DecodePlacement(m'.lastKataType) == u.kataType
    ensures DecodePlacement(m'.lastKumiType) == u.kumiType
    ensures m'.lastKataRank == u.kataRank && m'.lastKumiRank == u.kumiRank
  {
    m.(lastTeamKataChk := u.teamKataChk, lastTeamKataRole := RoleLabel(u.teamKataRole),
       lastTeamKumiChk := u.teamKumiChk, lastTeamKumiRole := RoleLabel(u.teamKumiRole),
       lastKataChk := u.kataChk, lastKataType := PlacementLabel(u.kataType), lastKataRank := u.kataRank,
       lastKumiChk := u.kumiChk, lastKumiType := PlacementLabel(u.kumiType), lastKumiRank := u.kumiRank)
  }
}
