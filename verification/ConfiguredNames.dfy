/**
 Lists of usernames as they are typed: the `PORTAL_USER_ALLOWLIST` setting (app/services/access_control_service.py)
 and the bulk request (app/schemas/user.py) both normalise each piece and keep the first of each name.
 */
module ConfiguredNames {
  import opened Options
  import opened PyText

  predicate IsSeparator(c: char) {
    c == ',' || c == ';' || c == '\n'
  }

  lemma {:induction false} SeparatorsByCode(c: char)
    ensures IsSeparator(c) <==> c as int in [10, 44, 59]
  {
  }

  /** `re.split(r"[,;\n]", raw)`. */
  function Split(raw: string): (r: seq<string>)
    ensures r != []
  {
    if raw == [] then [[]] else
      var rest := Split(raw[1..]);
      if IsSeparator(raw[0]) then [[]] + rest else [[raw[0]] + rest[0]] + rest[1..]
  }

  /** A text without separators is one piece, and a separator keeps its two sides apart: this determines `Split`. */
  lemma {:induction false} SplitAtASeparator(piece: string, separator: char, rest: string)
    requires IsSeparator(separator) && forall i :: 0 <= i < |piece| ==> !IsSeparator(piece[i])
    ensures Split(piece) == [piece]
    ensures Split(piece + [separator] + rest) == [piece] + Split(rest)
  {
    var whole := piece + [separator] + rest;
    if piece == [] {
      assert whole[1..] == rest;
    } else {
      assert whole[1..] == piece[1..] + [separator] + rest;
      assert [piece[0]] + piece[1..] == piece;
      SplitAtASeparator(piece[1..], separator, rest);
    }
  }

  /** The distinct nonblank names among the pieces, normalised, in order of first appearance. */
  function Cleaned(pieces: seq<string>): seq<string> {
    if pieces == [] then [] else
      var rest := Cleaned(pieces[..|pieces| - 1]);
      var name := Normalize(pieces[|pieces| - 1]);
      if name != [] && name !in rest then rest + [name] else rest
  }

  predicate AllNormal(names: seq<string>) {
    forall i :: 0 <= i < |names| ==> names[i] != [] && Normalize(names[i]) == names[i]
  }

  predicate Distinct(names: seq<string>) {
    forall i, j :: 0 <= i < j < |names| ==> names[i] != names[j]
  }

  lemma {:induction false} CleanedIsNormalAndDistinct(pieces: seq<string>)
    ensures AllNormal(Cleaned(pieces)) && Distinct(Cleaned(pieces))
  {
    if pieces != [] {
      CleanedIsNormalAndDistinct(pieces[..|pieces| - 1]);
      NormalizeIdempotent(pieces[|pieces| - 1]);
    }
  }

  /** Exactly the names some piece spells. */
  lemma {:induction false} CleanedNamesThePieces(pieces: seq<string>, name: string)
    ensures name in Cleaned(pieces) <==> name != [] && exists i :: 0 <= i < |pieces| && Normalize(pieces[i]) == name
  {
    if pieces != [] {
      var front, last := pieces[..|pieces| - 1], |pieces| - 1;
      CleanedNamesThePieces(front, name);
      assert name in Cleaned(pieces) <==> name in Cleaned(front) || (name != [] && name == Normalize(pieces[last]));
      if i :| 0 <= i < |pieces| && Normalize(pieces[i]) == name && i < last {
        assert Normalize(front[i]) == name;
      }
      if i :| 0 <= i < |front| && Normalize(front[i]) == name {
        assert Normalize(pieces[i]) == name;
      }
    }
  }

  /** Each name stands where it first appeared: the names before it are those of the pieces before that one. */
  lemma {:induction false} NamesKeepTheirOrder(pieces: seq<string>, k: nat) returns (p: nat)
    requires k < |Cleaned(pieces)|
    ensures p < |pieces| && Normalize(pieces[p]) == Cleaned(pieces)[k]
    ensures Cleaned(pieces[..p]) == Cleaned(pieces)[..k]
  {
    var front := pieces[..|pieces| - 1];
    if k < |Cleaned(front)| {
      p := NamesKeepTheirOrder(front, k);
      assert front[..p] == pieces[..p];
    } else {
      p := |pieces| - 1;
    }
  }

  method ConfiguredAllowlistUsernames(raw: string) returns (usernames: seq<string>)
    ensures usernames == Cleaned(Split(raw))
  {
    var values := Split(raw);
    usernames := [];
    var seen: set<string> := {};
    for i := 0 to |values|
      invariant usernames == Cleaned(values[..i])
      invariant forall name :: name in seen <==> name in usernames
    {
      assert values[..i + 1][..i] == values[..i];
      var normalized := Normalize(values[i]);
      if normalized != [] && normalized !in seen {
        seen := seen + {normalized};
        usernames := usernames + [normalized];
      }
    }
    assert values[..|values|] == values;
  }

  predicate UsableLength(name: string) {
    3 <= |name| <= 64
  }

  /** The bulk request's names, or None when validation refuses it. */
  function BulkNames(raw: seq<string>): (r: Option<seq<string>>)
    ensures r.Some? ==> r.value == Cleaned(raw)
  {
    var names := Cleaned(raw);
    if (forall i :: 0 <= i < |names| ==> UsableLength(names[i])) && 1 <= |names| <= 200 then Some(names) else None
  }
}
