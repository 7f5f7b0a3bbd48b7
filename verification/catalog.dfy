/** The static topic catalog: the nineteen quiz topics with their category
    strings, resource file names and true/false flag, and the three chapters
    that group them on the home screen. */
module Catalog {
  import opened Sequences

  datatype Topic =
    | Coordinator1
    | Coordinator2
    | Health1
    | Health2
    | Counseling1
    | Counseling2
    | Environment1
    | Environment2
    | Welfare1
    | Welfare2
    | MarubatsuElderlyDisabled
    | MarubatsuElderlyDisabled2
    | MarubatsuElderlyDisabled3
    | SelectionElderlyDisabled
    | MarubatsuHealthDisabilities
    | MarubatsuHealthDisabilities2
    | MarubatsuHealthDisabilities3
    | SelectionHealthDisabilities
    | SelectionHealthDisabilities2

  datatype Chapter = General | Elderly | Health

  /** `QuizTopic.allCases`, in declaration order. */
  const AllTopics: seq<Topic> := [
    Coordinator1, Coordinator2, Health1, Health2, Counseling1, Counseling2,
    Environment1, Environment2, Welfare1, Welfare2,
    MarubatsuElderlyDisabled, MarubatsuElderlyDisabled2, MarubatsuElderlyDisabled3,
    SelectionElderlyDisabled,
    MarubatsuHealthDisabilities, MarubatsuHealthDisabilities2, MarubatsuHealthDisabilities3,
    SelectionHealthDisabilities, SelectionHealthDisabilities2
  ]

  /** The category string that the repository filters on. */
  function Category(t: Topic): string {
    match t
    case Coordinator1 => "福祉住環境コーディネーターの役割 1"
    case Coordinator2 => "福祉住環境コーディネーターの役割 2"
    case Health1 => "疾患・障害別住環境整備 1"
    case Health2 => "疾患・障害別住環境整備 2"
    case Counseling1 => "相談援助技術 1"
    case Counseling2 => "相談援助技術 2"
    case Environment1 => "住環境整備の技術 1"
    case Environment2 => "住環境整備の技術 2"
    case Welfare1 => "福祉用具の活用 1"
    case Welfare2 => "福祉用具の活用 2"
    case MarubatsuElderlyDisabled => "【◯✖️】高齢者障害者"
    case MarubatsuElderlyDisabled2 => "【◯✖️】高齢者障害者2"
    case MarubatsuElderlyDisabled3 => "【◯✖️】高齢者障害者3"
    case SelectionElderlyDisabled => "選択 高齢者障害者"
    case MarubatsuHealthDisabilities => "【◯✖️】健康・障害"
    case MarubatsuHealthDisabilities2 => "🩷【◯✖️】健康・障害2"
    case MarubatsuHealthDisabilities3 => "【◯✖️】健康・障害3"
    case SelectionHealthDisabilities => "【選択】健康・障害"
    case SelectionHealthDisabilities2 => "【選択】健康・障害2"
  }

  /** The topic's identity (and display title): its category string. */
  function Id(t: Topic): string {
    Category(t)
  }

  /** The JSON resource name under `questions/`, without extension. */
  function FileName(t: Topic): string {
    match t
    case Coordinator1 => "coordinator_1"
    case Coordinator2 => "coordinator_2"
    case Health1 => "health_1"
    case Health2 => "health_2"
    case Counseling1 => "counseling_1"
    case Counseling2 => "counseling_2"
    case Environment1 => "environment_1"
    case Environment2 => "environment_2"
    case Welfare1 => "welfare_1"
    case Welfare2 => "welfare_2"
    case MarubatsuElderlyDisabled => "marubatsu_elderly_disabled"
    case MarubatsuElderlyDisabled2 => "marubatsu_elderly_disabled_2"
    case MarubatsuElderlyDisabled3 => "marubatsu_elderly_disabled_3"
    case SelectionElderlyDisabled => "selection_elderly_disabled"
    case MarubatsuHealthDisabilities => "marubatsu_health_disabilities"
    case MarubatsuHealthDisabilities2 => "marubatsu_health_disabilities_2"
    case MarubatsuHealthDisabilities3 => "marubatsu_health_disabilities_3"
    case SelectionHealthDisabilities => "selection_health_disability"
    case SelectionHealthDisabilities2 => "selection_health_disability_2"
  }

  /** True for the true/false ("◯✖") topics. */
  function IsMaruBatsu(t: Topic): bool {
    match t
    case MarubatsuElderlyDisabled | MarubatsuElderlyDisabled2 | MarubatsuElderlyDisabled3
       | MarubatsuHealthDisabilities | MarubatsuHealthDisabilities2 | MarubatsuHealthDisabilities3 => true
    case _ => false
  }

  /** The topics each chapter lists, in display order. */
  function Topics(c: Chapter): seq<Topic> {
    match c
    case General => [
      Coordinator1, Coordinator2, Health1, Health2, Counseling1, Counseling2,
      Environment1, Environment2, Welfare1, Welfare2]
    case Elderly => [
      MarubatsuElderlyDisabled, MarubatsuElderlyDisabled2, MarubatsuElderlyDisabled3,
      SelectionElderlyDisabled]
    case Health => [
      MarubatsuHealthDisabilities, MarubatsuHealthDisabilities2, MarubatsuHealthDisabilities3,
      SelectionHealthDisabilities, SelectionHealthDisabilities2]
  }

  /** `allCases` lists every topic exactly once. */
  lemma AllTopicsEnumerates(t: Topic)
    ensures t in AllTopics
    ensures Distinct(AllTopics)
    ensures |AllTopics| == 19
  {
  }

  /** Different topics have different categories, so topic ids are unique. */
  lemma CategoriesDistinct(t: Topic, u: Topic)
    ensures Category(t) == Category(u) ==> t == u
    ensures Id(t) == Id(u) ==> t == u
  {
  }

  /** Different topics have different resource files. */
  lemma FileNamesDistinct(t: Topic, u: Topic)
    ensures FileName(t) == FileName(u) ==> t == u
  {
  }

  /** The true/false topics are exactly the six whose resource file name
      starts with "marubatsu"; no other file name even starts with 'm'. */
  lemma MaruBatsuByFileName(t: Topic)
    ensures IsMaruBatsu(t) <==> FileName(t)[0] == 'm'
    ensures IsMaruBatsu(t) ==> "marubatsu" <= FileName(t)
  {
    match t
    case Coordinator1 =>
    case Coordinator2 =>
    case Health1 =>
    case Health2 =>
    case Counseling1 =>
    case Counseling2 =>
    case Environment1 =>
    case Environment2 =>
    case Welfare1 =>
    case Welfare2 =>
    case MarubatsuElderlyDisabled =>
    case MarubatsuElderlyDisabled2 =>
    case MarubatsuElderlyDisabled3 =>
    case SelectionElderlyDisabled =>
    case MarubatsuHealthDisabilities =>
    case MarubatsuHealthDisabilities2 =>
    case MarubatsuHealthDisabilities3 =>
    case SelectionHealthDisabilities =>
    case SelectionHealthDisabilities2 =>
  }

  /** The chapter that lists a topic; it is the only one that does. */
  function ChapterOf(t: Topic): (c: Chapter)
    ensures t in Topics(General) <==> c == General
    ensures t in Topics(Elderly) <==> c == Elderly
    ensures t in Topics(Health) <==> c == Health
  {
    match t
    case Coordinator1 | Coordinator2 | Health1 | Health2 | Counseling1 | Counseling2
       | Environment1 | Environment2 | Welfare1 | Welfare2 => General
    case MarubatsuElderlyDisabled | MarubatsuElderlyDisabled2 | MarubatsuElderlyDisabled3
       | SelectionElderlyDisabled => Elderly
    case MarubatsuHealthDisabilities | MarubatsuHealthDisabilities2 | MarubatsuHealthDisabilities3
       | SelectionHealthDisabilities | SelectionHealthDisabilities2 => Health
  }

  /** The chapters partition the topics: no chapter lists a topic twice, and
      together they list all nineteen. */
  lemma ChaptersPartitionTopics(c: Chapter)
    ensures Distinct(Topics(c))
    ensures |Topics(General)| + |Topics(Elderly)| + |Topics(Health)| == |AllTopics|
  {
  }
}
