/** Classification of records: special (noise) sources, query matches and
    substring filters. */
module Classifier {
  import opened Strings
  import opened Schema

  /** The special sources: exact chat names, and parts any of which marks a chat name. */
  datatype SpecialSources = SpecialSources(standard: seq<string>, parts: seq<string>)

  /** A chat name is special when it equals a standard source or contains a part. */
  predicate IsSpecialChat(chat: string, ss: SpecialSources)
  {
    chat in ss.standard || exists p :: p in ss.parts && Contains(chat, p)
  }

  /** `isInSpecialSources`: decided by the record's chat name alone. */
  predicate IsInSpecialSources(row: Row, ss: SpecialSources)
    requires |row| > ChatName
  {
    IsSpecialChat(row[ChatName], ss)
  }

  /** `isMatchByQuery`: the query is tested on the lower-cased text. */
  predicate IsMatchByQuery(row: Row, query: string -> bool)
    requires WellFormed(row)
  {
    query(ToLower(row[Text]))
  }

  /** `hasValueFromArray`: the lower-cased field contains some lower-cased filter string.
      `some` over an empty list never reads the field, so only a non-empty list needs it. */
  predicate HasValueFromArray(row: Row, column: nat, filterArr: seq<string>)
    requires column < |row| || |filterArr| == 0
  {
    exists el :: el in filterArr && Contains(ToLower(row[column]), ToLower(el))
  }

  /** Two records of the same chat are both special or both not. */
  lemma SpecialnessFollowsChat(a: Row, b: Row, ss: SpecialSources)
    requires |a| > ChatName && |b| > ChatName && a[ChatName] == b[ChatName]
    ensures IsInSpecialSources(a, ss) == IsInSpecialSources(b, ss)
  {
  }

  /** The exact-name list is compared case-sensitively, the parts as substrings. */
  lemma SpecialSourcesCases(row: Row, ss: SpecialSources)
    requires |row| > ChatName
    ensures row[ChatName] in ss.standard ==> IsInSpecialSources(row, ss)
    ensures row[ChatName] !in ss.standard && (forall p :: p in ss.parts ==> !Contains(row[ChatName], p))
            ==> !IsInSpecialSources(row, ss)
  {
  }
}
