/** Which tables of spellings a locale profile may have, and what they make possible. */
module LocaleProfile {
  import opened Base
  import opened SourceMask
  import opened LocalizedWords
  import opened LocalizedSource
  import opened Localization

  datatype Entry = Entry(spelling: string, word: string)

  /** The scripts a profile lists, and the reserved words that may be localized. */
  datatype Scope = Scope(scripts: set<string>, localizable: set<string>)

  /** What one entry must be by itself. */
  predicate EntryOk(lex: Lexicon, scope: Scope, e: Entry) {
    var s := e.spelling;
    && e.word in lex.reserved && e.word in scope.localizable
    && 1 <= |s| <= 64
    && lex.repertoire(s[0]).Some? && lex.repertoire(s[0]).value in scope.scripts
    && (forall i | 1 <= i < |s| :: Continuation(s[i]) || lex.repertoire(s[i]) == lex.repertoire(s[0]))
    && !Identifier(s, true)
    && (s in lex.reserved ==> s == e.word)
    && (Skeleton(lex, s) in lex.canonicalSkeletons ==> lex.canonicalSkeletons[Skeleton(lex, s)] == e.word)
  }

  /** No two spellings look alike, and none looks like another canonical word. */
  predicate TableOk(lex: Lexicon, scope: Scope, entries: seq<Entry>) {
    && (forall i | 0 <= i < |entries| :: EntryOk(lex, scope, entries[i]))
    && forall i, j | 0 <= i < j < |entries| :: Skeleton(lex, entries[i].spelling) != Skeleton(lex, entries[j].spelling)
  }

  /** Check the table entry by entry, remembering the skeletons seen. */
  method ValidateSpellings(lex: Lexicon, scope: Scope, entries: seq<Entry>) returns (ok: bool, skeletons: set<string>)
    ensures ok <==> TableOk(lex, scope, entries)
    ensures ok ==> skeletons == set i | 0 <= i < |entries| :: Skeleton(lex, entries[i].spelling)
  {
    skeletons := {};
    for i := 0 to |entries|
      invariant TableOk(lex, scope, entries[..i])
      invariant skeletons == set k | 0 <= k < i :: Skeleton(lex, entries[k].spelling)
    {
      var s, word := entries[i].spelling, entries[i].word;
      var entryOk := CheckEntry(lex, scope, entries[i]);
      if !entryOk || Skeleton(lex, s) in skeletons {
        return false, skeletons;
      }
      assert entries[..i + 1] == entries[..i] + [entries[i]];
      skeletons := skeletons + {Skeleton(lex, s)};
    }
    assert entries[..|entries|] == entries;
    ok := true;
  }

  method CheckEntry(lex: Lexicon, scope: Scope, e: Entry) returns (ok: bool)
    ensures ok <==> EntryOk(lex, scope, e)
  {
    var s := e.spelling;
    if e.word !in lex.reserved || e.word !in scope.localizable || |s| < 1 || |s| > 64 {
      return false;
    }
    var script := lex.repertoire(s[0]);
    if script.None? || script.value !in scope.scripts {
      return false;
    }
    for i := 1 to |s|
      invariant forall k | 1 <= k < i :: Continuation(s[k]) || lex.repertoire(s[k]) == script
    {
      if !Continuation(s[i]) && lex.repertoire(s[i]) != script {
        return false;
      }
    }
    var skeleton := Skeleton(lex, s);
    ok := !Identifier(s, true) && (s in lex.reserved ==> s == e.word)
          && (skeleton in lex.canonicalSkeletons ==> lex.canonicalSkeletons[skeleton] == e.word);
  }

  /** A spelling that passes is a word of a source, and one that is looked up. */
  lemma EntryIsSpelling(lex: Lexicon, scope: Scope, e: Entry)
    requires lex.Valid() && EntryOk(lex, scope, e)
    ensures SpellingOk(lex, e.spelling)
  {
    var s := e.spelling;
    forall i | 0 <= i < |s|
      ensures IsWord(lex, s[i]) && !('a' <= s[i] <= 'z')
    {
      assert i > 0 ==> Continuation(s[i]) || lex.repertoire(s[i]) == lex.repertoire(s[0]);
    }
  }

  /** The spellings of the table, each with its word. */
  ghost predicate SpellsTable(entries: seq<Entry>, spellings: map<string, string>) {
    && (forall i | 0 <= i < |entries| :: entries[i].spelling in spellings && spellings[entries[i].spelling] == entries[i].word)
    && forall s | s in spellings :: exists i :: 0 <= i < |entries| && entries[i].spelling == s
  }

  /** Character by character they look the same. */
  predicate Alike(lex: Lexicon, s: string, t: string) {
    |s| == |t| && forall i | 0 <= i < |s| :: lex.lookalike(s[i]) == lex.lookalike(t[i])
  }

  /** All of one script that the profile lists, but for digits and underscores after the first letter. */
  predicate OneScript(lex: Lexicon, scripts: set<string>, s: string) {
    && s != [] && lex.repertoire(s[0]).Some? && lex.repertoire(s[0]).value in scripts
    && forall c | c in s :: '0' <= c <= '9' || c == '_' || lex.repertoire(c) == lex.repertoire(s[0])
  }

  /** What one spelling of a valid table promises. */
  predicate SpellsWell(lex: Lexicon, scope: Scope, s: string, word: string) {
    && word in lex.reserved && word in scope.localizable && |s| <= 64 && OneScript(lex, scope.scripts, s)
    && (s in lex.reserved ==> word == s)
    && forall t | t in lex.canonicalSkeletons && |t| == |s| && (forall i | 0 <= i < |s| :: t[i] == lex.lookalike(s[i])) ::
         lex.canonicalSkeletons[t] == word
  }

  lemma EntryPromises(lex: Lexicon, scope: Scope, e: Entry)
    requires EntryOk(lex, scope, e)
    ensures SpellsWell(lex, scope, e.spelling, e.word)
  {
    var s := e.spelling;
    forall t | t in lex.canonicalSkeletons && |t| == |s| && forall i | 0 <= i < |s| :: t[i] == lex.lookalike(s[i])
      ensures lex.canonicalSkeletons[t] == e.word
    {
      assert Skeleton(lex, s) == t;
    }
  }

  lemma AlikeIsSame(lex: Lexicon, scope: Scope, entries: seq<Entry>, i: nat, j: nat)
    requires TableOk(lex, scope, entries) && i < |entries| && j < |entries|
    requires Alike(lex, entries[i].spelling, entries[j].spelling)
    ensures i == j
  {
    assert Skeleton(lex, entries[i].spelling) == Skeleton(lex, entries[j].spelling);
  }

  lemma EntryOf(entries: seq<Entry>, spellings: map<string, string>, s: string) returns (i: nat)
    requires SpellsTable(entries, spellings) && s in spellings
    ensures i < |entries| && entries[i].spelling == s && entries[i].word == spellings[s]
  {
    i :| i < |entries| && entries[i].spelling == s;
  }

  /**
   * A valid table spells only words that may be localized, in one listed script; a reserved word can only spell itself;
   * what looks like a canonical word spells that word; and no two spellings look alike.
   */
  lemma TablePromises(lex: Lexicon, scope: Scope, entries: seq<Entry>, spellings: map<string, string>)
    requires TableOk(lex, scope, entries) && SpellsTable(entries, spellings)
    ensures forall s | s in spellings :: SpellsWell(lex, scope, s, spellings[s])
    ensures forall s, t | s in spellings && t in spellings && Alike(lex, s, t) :: s == t
  {
    forall s | s in spellings
      ensures SpellsWell(lex, scope, s, spellings[s])
    {
      var i := EntryOf(entries, spellings, s);
      EntryPromises(lex, scope, entries[i]);
    }
    forall s, t | s in spellings && t in spellings && Alike(lex, s, t)
      ensures s == t
    {
      var i := EntryOf(entries, spellings, s);
      var j := EntryOf(entries, spellings, t);
      AlikeIsSame(lex, scope, entries, i, j);
    }
  }

  /** The check against identifiers never fires: no spelling starts with a small ASCII letter. */
  lemma {:induction false} NeverAnIdentifier(lex: Lexicon, scripts: set<string>, s: string)
    requires lex.Valid() && OneScript(lex, scripts, s)
    ensures !Identifier(s, true)
  {
  }

  predicate Covers(lex: Lexicon, entries: seq<Entry>) {
    forall word | word in lex.reserved :: exists i :: 0 <= i < |entries| && entries[i].word == word
  }

  /** A valid table that covers every reserved word can respell every source whose candidates are reserved. */
  lemma {:induction false} RespellingExists(lex: Lexicon, scope: Scope, entries: seq<Entry>, spellings: map<string, string>,
                                            a: seq<Piece>) returns (b: seq<Piece>)
    requires lex.Valid() && TableOk(lex, scope, entries) && SpellsTable(entries, spellings) && Covers(lex, entries)
    requires forall i | 0 <= i < |a| && IsCandidate(a[i]) :: a[i].run in lex.reserved
    ensures Respelled(lex, spellings, a, b)
  {
    if a == [] {
      b := [];
    } else {
      var rest := RespellingExists(lex, scope, entries, spellings, a[1..]);
      var head := SpellingExists(lex, scope, entries, spellings, a[0]);
      b := [head] + rest;
      RespelledOn(lex, spellings, a, head, rest);
    }
  }

  lemma SpellingExists(lex: Lexicon, scope: Scope, entries: seq<Entry>, spellings: map<string, string>, piece: Piece)
    returns (head: Piece)
    requires lex.Valid() && TableOk(lex, scope, entries) && SpellsTable(entries, spellings) && Covers(lex, entries)
    requires IsCandidate(piece) ==> piece.run in lex.reserved
    ensures Respells(lex, spellings, piece, head)
  {
    head := piece;
    if IsCandidate(piece) {
      var i :| 0 <= i < |entries| && entries[i].word == piece.run;
      EntryIsSpelling(lex, scope, entries[i]);
      head := Run(entries[i].spelling);
    }
  }

  lemma RespelledOn(lex: Lexicon, spellings: map<string, string>, a: seq<Piece>, head: Piece, rest: seq<Piece>)
    requires a != [] && Respells(lex, spellings, a[0], head) && Respelled(lex, spellings, a[1..], rest)
    ensures Respelled(lex, spellings, a, [head] + rest)
  {
    forall i | 0 <= i < |a|
      ensures Respells(lex, spellings, a[i], ([head] + rest)[i])
    {
      if i > 0 {
        assert Respells(lex, spellings, a[1..][i - 1], rest[i - 1]);
      }
    }
  }

  /** Every replacement of candidates by spellings of a valid table is a respelling. */
  lemma TableRespells(lex: Lexicon, scope: Scope, entries: seq<Entry>, spellings: map<string, string>, a: seq<Piece>,
                      b: seq<Piece>)
    requires lex.Valid() && TableOk(lex, scope, entries) && SpellsTable(entries, spellings) && |a| == |b|
    requires forall i | 0 <= i < |a| ::
      if IsCandidate(a[i]) then b[i].Run? && b[i].run in spellings && spellings[b[i].run] == a[i].run else b[i] == a[i]
    ensures Respelled(lex, spellings, a, b)
  {
    forall i | 0 <= i < |a|
      ensures Respells(lex, spellings, a[i], b[i])
    {
      if IsCandidate(a[i]) {
        var k :| 0 <= k < |entries| && entries[k].spelling == b[i].run;
        EntryIsSpelling(lex, scope, entries[k]);
      }
    }
  }
}
