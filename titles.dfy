/** Board and card titles in the board view: long names are cut to a
    configured length and end in "...", a board shows its number of cards,
    and the current board or card is marked with ">> ". */
module Titles {
  import opened Wrappers
  import opened Decimal

  const ELLIPSIS: string := "..."
  const MARKER: string := ">> "

  /** Cut a title longer than `limit` characters to its first `limit`
      characters followed by "...". */
  function Truncate(title: string, limit: nat): (t: string)
    ensures |title| <= limit ==> t == title
    ensures |title| > limit ==> |t| == limit + |ELLIPSIS| && t[..limit] == title[..limit] && t[limit..] == ELLIPSIS
  {
    if |title| > limit then title[..limit] + ELLIPSIS else title
  }

  /** Whether an id is the current one. An absent selection is compared as
      the id 0, so with nothing selected the item with id 0 is marked. */
  predicate IsCurrent(id: nat, current: Option<nat>)
  {
    current.GetOr(0) == id
  }

  function Marked(isCurrent: bool, title: string): string
  {
    if isCurrent then MARKER + title else title
  }

  /** "<name> (<number of cards>)", truncated and possibly marked. */
  function BoardTitle(name: string, cardCount: nat, id: nat, current: Option<nat>, limit: nat): string
  {
    Marked(IsCurrent(id, current), Truncate(name, limit) + " (" + NatToString(cardCount) + ")")
  }

  function CardTitle(name: string, id: nat, current: Option<nat>, limit: nat): string
  {
    Marked(IsCurrent(id, current), Truncate(name, limit))
  }

  /** A board title starts with the marker when the board is current and
      with its (possibly cut) name otherwise, and it ends with the card count
      in parentheses, which reads back as that count. */
  lemma BoardTitleParts(name: string, cardCount: nat, id: nat, current: Option<nat>, limit: nat)
    ensures var t := BoardTitle(name, cardCount, id, current, limit);
            var digits := NatToString(cardCount);
            var shown := Truncate(name, limit);
            && (IsCurrent(id, current) ==> t[..3] == MARKER && t[3..3 + |shown|] == shown)
            && (!IsCurrent(id, current) ==> t[..|shown|] == shown)
            && |t| == (if IsCurrent(id, current) then 3 else 0) + |shown| + 3 + |digits|
            && t[|t| - 1 - |digits|..|t| - 1] == digits
            && StringToNat(t[|t| - 1 - |digits|..|t| - 1]) == cardCount
  {
    var digits := NatToString(cardCount);
    var shown := Truncate(name, limit);
    var body := shown + " (" + digits + ")";
    CountSuffix(shown, digits);
    if IsCurrent(id, current) {
      SuffixUnderPrefix(MARKER, body, |digits|);
    }
    StringToNatInverts(cardCount);
  }

  /** "<prefix> (<digits>)" starts with the prefix and holds the digits just
      before its last character. */
  lemma CountSuffix(prefix: string, digits: string)
    ensures var b := prefix + " (" + digits + ")";
            && |b| == |prefix| + 3 + |digits|
            && b[..|prefix|] == prefix
            && b[|b| - 1 - |digits|..|b| - 1] == digits
  {
    var b := prefix + " (" + digits + ")";
    assert b[|b| - 1 - |digits|..|b| - 1] == digits by {
      forall i | 0 <= i < |digits|
        ensures b[|b| - 1 - |digits| + i] == digits[i]
      {
      }
    }
  }

  /** Putting something in front of a title does not change its end. */
  lemma SuffixUnderPrefix(p: string, b: string, k: nat)
    requires k + 1 <= |b|
    ensures (p + b)[..|p|] == p
    ensures (p + b)[|p + b| - 1 - k..|p + b| - 1] == b[|b| - 1 - k..|b| - 1]
  {
  }

  /** A card title is its (possibly cut) name, behind the marker exactly
      when the card is current; with no selection, card 0 is the one marked. */
  lemma CardTitleParts(name: string, id: nat, current: Option<nat>, limit: nat)
    ensures var t := CardTitle(name, id, current, limit);
            var shown := Truncate(name, limit);
            && (IsCurrent(id, current) ==> t == MARKER + shown)
            && (!IsCurrent(id, current) ==> t == shown)
            && |t| <= 3 + limit + 3
    ensures IsCurrent(0, None)
    ensures var t := CardTitle(name, id, current, limit);
            && (!IsCurrent(id, current) && |name| <= limit ==> t == name)
            && (IsCurrent(id, current) ==> t[..|MARKER|] == MARKER)
            && (|name| > limit ==> |t| >= |ELLIPSIS| && t[|t| - |ELLIPSIS|..] == ELLIPSIS)
  {
  }
}
