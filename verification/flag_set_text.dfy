/**
  The textual form of a flag set: `NewFlagSetFromCSV` (case-insensitive,
  comma-separated tokens) and `String` (", "-joined tokens), and the
  conditional round trip between them.
 */
module FlagSetText {
  import opened GoStrings
  import opened FlagSets

  // ---------------------------------------------------------------------------
  // Parsing
  // ---------------------------------------------------------------------------

  /** One comma-separated piece as the parser sees it: lower-cased, then
      trimmed of spaces, tabs and newlines. */
  function Normalize(raw: string): (t: string)
    ensures IsLower(t) && Trimmed(t)
  {
    Trim(ToLower(raw))
  }

  function NormalizeAll(raws: seq<string>): (ts: seq<string>)
    ensures |ts| == |raws|
    ensures forall i :: 0 <= i < |raws| ==> ts[i] == Normalize(raws[i])
  {
    if |raws| == 0 then [] else [Normalize(raws[0])] + NormalizeAll(raws[1..])
  }

  /** The flag a normalised token names: a leading '-' is dropped. */
  function TokenKey(t: string): Flag
  {
    if |t| > 0 && t[0] == '-' then t[1..] else t
  }

  /** The entry a normalised token records: `false` for "-x", `true` otherwise. */
  function TokenValue(t: string): bool
  {
    !(|t| > 0 && t[0] == '-')
  }

  /** The effect of one normalised token: "all" and "none" switch on their bit,
      and every token, those two and the empty one included, records an entry. */
  function Record(fs: FlagSet, t: string): (r: FlagSet)
    ensures r.all <==> fs.all || t == FlagAll
    ensures r.none <==> fs.none || t == FlagNone
    ensures r.flags == fs.flags[TokenKey(t) := TokenValue(t)]
  {
    var bits := FlagSet(fs.flags, fs.all || t == FlagAll, fs.none || t == FlagNone);
    if |t| > 0 && t[0] == '-' then
      FlagSet(bits.flags[t[1..] := false], bits.all, bits.none)
    else
      FlagSet(bits.flags[t := true], bits.all, bits.none)
  }

  /** Applies normalised tokens left to right, so a later token overrides an
      earlier one naming the same flag. */
  function RecordAll(fs: FlagSet, ts: seq<string>): FlagSet
    decreases |ts|
  {
    if |ts| == 0 then fs else RecordAll(Record(fs, ts[0]), ts[1..])
  }

  /** `NewFlagSetFromCSV`. No token is rejected; the empty input is the one
      empty token. */
  function FromCSV(csv: string): FlagSet
  {
    RecordAll(Empty, NormalizeAll(Split(csv, ',')))
  }

  lemma {:induction false} RecordAllAppend(fs: FlagSet, ts: seq<string>, t: string)
    ensures RecordAll(fs, ts + [t]) == Record(RecordAll(fs, ts), t)
    decreases |ts|
  {
    if |ts| > 0 {
      assert (ts + [t])[1..] == ts[1..] + [t];
      RecordAllAppend(Record(fs, ts[0]), ts[1..], t);
    }
  }

  /** The entry the last token naming `k` records, found by scanning from the
      end; None when no token names `k`. */
  function LastEntry(ts: seq<string>, k: Flag): Option<bool>
  {
    if |ts| == 0 then None
    else if TokenKey(ts[|ts| - 1]) == k then Some(TokenValue(ts[|ts| - 1]))
    else LastEntry(ts[..|ts| - 1], k)
  }

  /** Parsing from an empty set: a bit is set iff some token is its sentinel,
      and each flag's entry is the one its last token records. */
  lemma {:induction false} RecordAllFromEmpty(ts: seq<string>, k: Flag)
    ensures var r := RecordAll(Empty, ts);
      && (r.all <==> exists i :: 0 <= i < |ts| && ts[i] == FlagAll)
      && (r.none <==> exists i :: 0 <= i < |ts| && ts[i] == FlagNone)
      && (k in r.flags <==> LastEntry(ts, k).Some?)
      && (k in r.flags ==> r.flags[k] == LastEntry(ts, k).value)
    decreases |ts|
  {
    if |ts| > 0 {
      var init := ts[..|ts| - 1];
      var t := ts[|ts| - 1];
      assert ts == init + [t];
      RecordAllAppend(Empty, init, t);
      RecordAllFromEmpty(init, k);
      assert forall i :: 0 <= i < |init| ==> init[i] == ts[i];
    }
  }

  /** What `NewFlagSetFromCSV` builds, for every input: a bit is set iff some
      comma-separated piece normalises to its sentinel, and a flag has an
      entry iff some piece names it, the entry being the one the last such
      piece records. */
  lemma FromCSVMeaning(csv: string, k: Flag)
    ensures FromCSV(csv).all <==>
      exists i :: 0 <= i < |Split(csv, ',')| && Normalize(Split(csv, ',')[i]) == FlagAll
    ensures FromCSV(csv).none <==>
      exists i :: 0 <= i < |Split(csv, ',')| && Normalize(Split(csv, ',')[i]) == FlagNone
    ensures k in FromCSV(csv).flags <==>
      exists i :: 0 <= i < |Split(csv, ',')| && TokenKey(Normalize(Split(csv, ',')[i])) == k
    ensures k in FromCSV(csv).flags ==>
      LastEntry(NormalizeAll(Split(csv, ',')), k) == Some(FromCSV(csv).flags[k])
  {
    assert FromCSV(csv) == RecordAll(Empty, NormalizeAll(Split(csv, ',')));
    FromPiecesMeaning(Split(csv, ','), k);
  }

  /** `FromCSVMeaning` for any list of raw pieces. */
  lemma FromPiecesMeaning(pieces: seq<string>, k: Flag)
    ensures RecordAll(Empty, NormalizeAll(pieces)).all <==>
      exists i :: 0 <= i < |pieces| && Normalize(pieces[i]) == FlagAll
    ensures RecordAll(Empty, NormalizeAll(pieces)).none <==>
      exists i :: 0 <= i < |pieces| && Normalize(pieces[i]) == FlagNone
    ensures k in RecordAll(Empty, NormalizeAll(pieces)).flags <==>
      exists i :: 0 <= i < |pieces| && TokenKey(Normalize(pieces[i])) == k
    ensures k in RecordAll(Empty, NormalizeAll(pieces)).flags ==>
      LastEntry(NormalizeAll(pieces), k) == Some(RecordAll(Empty, NormalizeAll(pieces)).flags[k])
  {
    var ts := NormalizeAll(pieces);
    var r := RecordAll(Empty, ts);
    assert r.all <==> exists i :: 0 <= i < |pieces| && Normalize(pieces[i]) == FlagAll by {
      RecordAllFromEmpty(ts, k);
    }
    assert r.none <==> exists i :: 0 <= i < |pieces| && Normalize(pieces[i]) == FlagNone by {
      RecordAllFromEmpty(ts, k);
    }
    assert k in r.flags <==> exists i :: 0 <= i < |pieces| && TokenKey(Normalize(pieces[i])) == k by {
      RecordAllFromEmpty(ts, k);
      LastEntryNames(ts, k);
    }
    assert k in r.flags ==> LastEntry(ts, k) == Some(r.flags[k]) by {
      RecordAllFromEmpty(ts, k);
    }
  }

  /** A token naming `k` exists iff the backward scan finds one. */
  lemma {:induction false} LastEntryNames(ts: seq<string>, k: Flag)
    ensures LastEntry(ts, k).Some? <==> exists i :: 0 <= i < |ts| && TokenKey(ts[i]) == k
    decreases |ts|
  {
    if |ts| > 0 {
      var init := ts[..|ts| - 1];
      LastEntryNames(init, k);
      assert forall i :: 0 <= i < |init| ==> init[i] == ts[i];
    }
  }

  /** Splits and normalises a CSV of two already-normal tokens. */
  lemma TwoTokenCSV(a: string, b: string)
    requires ',' !in a && ',' !in b
    requires IsLower(a) && IsLower(b) && Trimmed(a) && Trimmed(b)
    ensures NormalizeAll(Split(a + "," + b, ',')) == [a, b]
  {
    SplitTwo(a, b);
    NormalizeTwo(a, b);
  }

  lemma SplitTwo(a: string, b: string)
    requires ',' !in a && ',' !in b
    ensures Split(a + "," + b, ',') == [a, b]
  {
    var parts := [a, b];
    assert FreeOf(parts, ',') by {
      assert parts[0] == a && parts[1] == b;
    }
    assert Join(parts, [',']) == a + "," + b by {
      assert parts[1..] == [b];
    }
    SplitJoin(parts, ',');
  }

  lemma NormalizeTwo(a: string, b: string)
    requires IsLower(a) && IsLower(b) && Trimmed(a) && Trimmed(b)
    ensures NormalizeAll([a, b]) == [a, b]
  {
    NormalizeClean(a);
    NormalizeClean(b);
    SameElements(NormalizeAll([a, b]), [a, b]);
  }

  /** A lower-case, trimmed token normalises to itself, with or without one
      space in front. */
  lemma NormalizeClean(t: string)
    requires IsLower(t) && Trimmed(t)
    ensures Normalize(t) == t
    ensures Normalize(" " + t) == t
  {
    var padded := " " + t;
    assert IsLower(padded) by {
      forall i | 0 <= i < |padded| ensures !IsUpper(padded[i]) {
        if i > 0 { assert padded[i] == t[i - 1]; }
      }
    }
    assert ToLower(padded) == padded;
    assert ToLower(t) == t;
    TrimAfterSpace(t);
  }

  /** Recording two tokens from the empty set. */
  lemma RecordTwo(a: string, b: string)
    ensures RecordAll(Empty, [a, b]) == Record(Record(Empty, a), b)
  {
    RecordAllAppend(Empty, [], a);
    RecordAllAppend(Empty, [a], b);
    assert [] + [a] == [a] && [a] + [b] == [a, b];
  }

  /** A CSV of two already-normal tokens parses like the two tokens recorded in turn. */
  lemma FromTwoTokenCSV(a: string, b: string)
    requires ',' !in a && ',' !in b
    requires IsLower(a) && IsLower(b) && Trimmed(a) && Trimmed(b)
    ensures FromCSV(a + "," + b) == Record(Record(Empty, a), b)
  {
    TwoTokenCSV(a, b);
    RecordTwo(a, b);
  }

  /** "all,-error" enables everything except "error". */
  lemma FromCSVExample()
    ensures var fs := FromCSV("all,-error");
      && fs.all && !fs.none
      && !IsEnabled(fs, "error") && IsEnabled(fs, "info")
  {
    ParseAllMinusError();
    AllMinusErrorVerdicts();
  }

  lemma AllMinusErrorVerdicts()
    ensures var fs := Record(Record(Empty, "all"), "-error");
      && fs.all && !fs.none
      && !IsEnabled(fs, "error") && IsEnabled(fs, "info")
  {
    assert TokenKey("-error") == "error" && !TokenValue("-error");
    assert "-error" != FlagAll && "-error" != FlagNone;
  }

  lemma ParseAllMinusError()
    ensures FromCSV("all,-error") == Record(Record(Empty, "all"), "-error")
  {
    assert "all" + "," + "-error" == "all,-error";
    FromTwoTokenCSV("all", "-error");
  }

  /** Parsing can set both bits at once; `all` then decides every verdict. */
  lemma FromCSVBothBits()
    ensures var fs := FromCSV("all,none");
      && fs.all && fs.none && IsEnabled(fs, "info")
  {
    var fs := Record(Record(Empty, "all"), "none");
    assert FromCSV("all,none") == fs by {
      assert "all" + "," + "none" == "all,none";
      FromTwoTokenCSV("all", "none");
    }
  }

  /** The parser is case-insensitive: lower-casing the whole input first
      changes nothing. */
  lemma FromCSVCaseInsensitive(csv: string)
    ensures FromCSV(ToLower(csv)) == FromCSV(csv)
  {
    var parts := Split(csv, ',');
    SplitToLower(csv);
    assert NormalizeAll(LowerAll(parts)) == NormalizeAll(parts) by {
      forall i | 0 <= i < |parts|
        ensures Normalize(LowerAll(parts)[i]) == Normalize(parts[i])
      {
        assert ToLower(ToLower(parts[i])) == ToLower(parts[i]);
      }
    }
  }

  // ---------------------------------------------------------------------------
  // Printing
  // ---------------------------------------------------------------------------

  /** The token that records entry `enabled` for `k`. */
  function Token(k: Flag, enabled: bool): string
  {
    if enabled then k else "-" + k
  }

  /** Whether `String` writes a token for the entry of `k`: never for "all",
      always for a disabled entry, and for an enabled one only without `all`. */
  predicate Emits(fs: FlagSet, k: Flag)
  {
    k in fs.flags && k != FlagAll && (!fs.flags[k] || !fs.all)
  }

  /** `order` lists every key of the map exactly once: a possible map
      iteration order. */
  predicate Enumerates(order: seq<Flag>, keys: set<Flag>)
  {
    && (forall i :: 0 <= i < |order| ==> order[i] in keys)
    && (forall k :: k in keys ==> k in order)
    && (forall i, j :: 0 <= i < j < |order| ==> order[i] != order[j])
  }

  /** The per-entry tokens, in the given key order. */
  function EntryTokens(fs: FlagSet, order: seq<Flag>): seq<string>
  {
    if |order| == 0 then [] else EntryToken(fs, order[0]) + EntryTokens(fs, order[1..])
  }

  /** The token written for the entry of `k`, if any. */
  function EntryToken(fs: FlagSet, k: Flag): seq<string>
  {
    if Emits(fs, k) then [Token(k, fs.flags[k])] else []
  }

  /** All tokens `String` joins, when `none` is clear. */
  function Tokens(fs: FlagSet, order: seq<Flag>): seq<string>
  {
    (if fs.all then [FlagAll] else []) + EntryTokens(fs, order)
  }

  /** `String`, with the map iteration order as a parameter: "none" when the
      `none` bit is set, otherwise the tokens joined by ", ". */
  function String(fs: FlagSet, order: seq<Flag>): (s: string)
    requires Enumerates(order, fs.flags.Keys)
    ensures fs.none ==> s == FlagNone
    ensures !fs.none && !fs.all && fs.flags == map[] ==> s == ""
    ensures !fs.none && fs.all ==> FlagAll <= s
  {
    if fs.none then FlagNone
    else
      var ts := Tokens(fs, order);
      assert fs.all ==> ts[0] == FlagAll && |ts| >= 1;
      assert |ts| >= 2 ==> Join(ts, ", ") == ts[0] + (", " + Join(ts[1..], ", "));
      assert !fs.all && fs.flags == map[] ==> order == [];
      Join(ts, ", ")
  }

  lemma {:induction false} EntryTokensAppend(fs: FlagSet, a: seq<Flag>, b: seq<Flag>)
    ensures EntryTokens(fs, a + b) == EntryTokens(fs, a) + EntryTokens(fs, b)
    decreases |a|
  {
    if |a| == 0 {
      assert a + b == b;
    } else {
      var head := EntryToken(fs, a[0]);
      assert (a + b)[0] == a[0];
      assert (a + b)[1..] == a[1..] + b;
      EntryTokensAppend(fs, a[1..], b);
      calc {
        EntryTokens(fs, a + b);
        head + EntryTokens(fs, a[1..] + b);
        head + (EntryTokens(fs, a[1..]) + EntryTokens(fs, b));
        (head + EntryTokens(fs, a[1..])) + EntryTokens(fs, b);
      }
    }
  }

  /** Removing one occurrence of `x` from both sides of a multiset equality. */
  lemma MultisetRemoveOne(o1: seq<Flag>, before: seq<Flag>, x: Flag, after: seq<Flag>)
    requires |o1| > 0 && o1[0] == x
    requires multiset(o1) == multiset(before + [x] + after)
    ensures multiset(o1[1..]) == multiset(before + after)
  {
    assert o1 == [x] + o1[1..];
    assert multiset(o1) == multiset([x]) + multiset(o1[1..]);
    assert multiset(before + [x] + after) == multiset(before) + multiset([x]) + multiset(after);
    assert multiset(before + after) == multiset(before) + multiset(after);
    forall y ensures multiset(o1[1..])[y] == multiset(before + after)[y] {
      assert multiset(o1)[y] == multiset([x])[y] + multiset(o1[1..])[y];
    }
  }

  /** Taking the key at index `j` out of an order takes its token out of the
      tokens, wherever it stands. */
  lemma EntryTokensAround(fs: FlagSet, o: seq<Flag>, j: nat)
    requires j < |o|
    ensures EntryTokens(fs, o)
         == EntryTokens(fs, o[..j]) + (EntryToken(fs, o[j]) + EntryTokens(fs, o[j + 1..]))
    ensures EntryTokens(fs, o[..j] + o[j + 1..])
         == EntryTokens(fs, o[..j]) + EntryTokens(fs, o[j + 1..])
  {
    var before, after := o[..j], o[j + 1..];
    assert EntryTokens(fs, [o[j]] + after) == EntryToken(fs, o[j]) + EntryTokens(fs, after) by {
      assert ([o[j]] + after)[1..] == after;
    }
    assert o == before + ([o[j]] + after);
    EntryTokensAppend(fs, before, [o[j]] + after);
    EntryTokensAppend(fs, before, after);
  }

  /** The multiset of tokens does not depend on the iteration order. */
  lemma {:induction false} EntryTokensPermutation(fs: FlagSet, o1: seq<Flag>, o2: seq<Flag>)
    requires multiset(o1) == multiset(o2)
    ensures multiset(EntryTokens(fs, o1)) == multiset(EntryTokens(fs, o2))
    decreases |o1|
  {
    if |o1| == 0 {
      assert |o2| == |multiset(o2)| == 0;
    } else {
      var x := o1[0];
      assert x in multiset(o1);
      assert x in o2;
      var j :| 0 <= j < |o2| && o2[j] == x;
      var before, after := o2[..j], o2[j + 1..];
      var rest := before + after;
      assert multiset(o1[1..]) == multiset(rest) by {
        assert o2 == before + [x] + after;
        MultisetRemoveOne(o1, before, x, after);
      }
      EntryTokensPermutation(fs, o1[1..], rest);
      var tx, tr := EntryToken(fs, x), EntryTokens(fs, o1[1..]);
      var tb, ta := EntryTokens(fs, before), EntryTokens(fs, after);
      EntryTokensAround(fs, o2, j);
      assert EntryTokens(fs, o1) == tx + tr;
      calc {
        multiset(EntryTokens(fs, o1));
        multiset(tx + tr);
        { assert multiset(tx + tr) == multiset(tx) + multiset(tr); }
        multiset(tx) + multiset(tr);
        multiset(tx) + multiset(tb + ta);
        { MultisetOfThree(tb, tx, ta); }
        multiset(tb + (tx + ta));
        multiset(EntryTokens(fs, o2));
      }
    }
  }

  lemma MultisetOfThree(a: seq<string>, b: seq<string>, c: seq<string>)
    ensures multiset(a + (b + c)) == multiset(b) + multiset(a + c)
  {
    assert multiset(a + (b + c)) == multiset(a) + multiset(b + c);
    assert multiset(b + c) == multiset(b) + multiset(c);
    assert multiset(a + c) == multiset(a) + multiset(c);
  }

  /** Two iteration orders give the same tokens up to rearrangement. */
  lemma StringOrderIrrelevant(fs: FlagSet, o1: seq<Flag>, o2: seq<Flag>)
    requires Enumerates(o1, fs.flags.Keys) && Enumerates(o2, fs.flags.Keys)
    ensures multiset(Tokens(fs, o1)) == multiset(Tokens(fs, o2))
  {
    assert multiset(o1) == multiset(o2) by {
      DistinctMultiset(o1);
      DistinctMultiset(o2);
      assert forall k :: k in o1 <==> k in o2;
    }
    EntryTokensPermutation(fs, o1, o2);
  }

  lemma {:induction false} DistinctMultiset(o: seq<Flag>)
    requires forall i, j :: 0 <= i < j < |o| ==> o[i] != o[j]
    ensures forall k :: multiset(o)[k] == if k in o then 1 else 0
    decreases |o|
  {
    if |o| > 0 {
      DistinctMultiset(o[1..]);
      assert o == [o[0]] + o[1..];
      assert o[0] !in o[1..];
    }
  }

  // ---------------------------------------------------------------------------
  // Printing, then parsing
  // ---------------------------------------------------------------------------

  /** A key `String` can write so that parsing reads the same entry back: not a
      sentinel, ASCII and lower-case (Go's `strings.ToLower` would rewrite an
      upper-case or special-cased non-ASCII letter), free of commas, not
      starting with '-', and with no space, tab or newline at either end. */
  predicate PrintableKey(k: Flag)
  {
    && k != FlagAll && k != FlagNone
    && IsAscii(k) && IsLower(k) && Trimmed(k) && ',' !in k
    && !(|k| > 0 && k[0] == '-')
  }

  /** A token the parser reads back unchanged. */
  predicate CleanToken(t: string)
  {
    IsLower(t) && Trimmed(t) && ',' !in t
  }

  /** The token of a printable key is clean and records exactly that entry. */
  lemma TokenOfPrintableKey(k: Flag, enabled: bool)
    requires PrintableKey(k)
    ensures var t := Token(k, enabled);
      && CleanToken(t) && t != FlagAll && t != FlagNone
      && TokenKey(t) == k && TokenValue(t) == enabled
  {
    if !enabled {
      var t := "-" + k;
      assert t[1..] == k;
      assert IsLower(t) by {
        forall i | 0 <= i < |t| ensures !IsUpper(t[i]) {
          if i > 0 { assert t[i] == k[i - 1]; }
        }
      }
      assert t[0] == '-';
    }
  }

  /** Every token `String` writes is clean when every key is printable. */
  lemma {:induction false} TokensClean(fs: FlagSet, order: seq<Flag>)
    requires forall k :: k in fs.flags ==> PrintableKey(k)
    ensures forall i :: 0 <= i < |EntryTokens(fs, order)| ==> CleanToken(EntryTokens(fs, order)[i])
    decreases |order|
  {
    if |order| > 0 {
      TokensClean(fs, order[1..]);
      if Emits(fs, order[0]) {
        TokenOfPrintableKey(order[0], fs.flags[order[0]]);
      }
    }
  }

  /** The tokens with a space in front of each. */
  function Spaced(ts: seq<string>): (r: seq<string>)
    ensures |r| == |ts|
    ensures forall i :: 0 <= i < |ts| ==> r[i] == " " + ts[i]
  {
    seq(|ts|, i requires 0 <= i < |ts| => " " + ts[i])
  }

  lemma JoinPrefixFirst(p: string, b: string, rest: seq<string>, sep: string)
    ensures Join([p + b] + rest, sep) == p + Join([b] + rest, sep)
  {
    if |rest| > 0 {
      assert ([p + b] + rest)[1..] == rest == ([b] + rest)[1..];
    }
  }

  /** Joining with ", " is joining with "," after putting a space in front of
      every token but the first. */
  lemma {:induction false} JoinCommaSpace(a: string, rest: seq<string>)
    ensures Join([a] + rest, ", ") == Join([a] + Spaced(rest), ",")
    decreases |rest|
  {
    if |rest| > 0 {
      var b := rest[0];
      var more := rest[1..];
      assert rest == [b] + more;
      JoinCommaSpace(b, more);
      assert Spaced(rest) == [" " + b] + Spaced(more);
      assert ([a] + rest)[1..] == rest;
      assert ([a] + Spaced(rest))[1..] == Spaced(rest);
      JoinPrefixFirst(" ", b, Spaced(more), ",");
      assert Join([a] + rest, ", ") == a + ", " + Join([b] + Spaced(more), ",");
    }
  }

  /** The pieces of the ", "-joined tokens between commas. */
  function Pieces(ts: seq<string>): seq<string>
    requires |ts| >= 1
  {
    [ts[0]] + Spaced(ts[1..])
  }

  lemma SplitJoinedTokens(ts: seq<string>)
    requires |ts| >= 1
    requires forall i :: 0 <= i < |ts| ==> CleanToken(ts[i])
    ensures Split(Join(ts, ", "), ',') == Pieces(ts)
  {
    JoinedIsPieces(ts);
    PiecesFreeOfComma(ts);
    SplitJoin(Pieces(ts), ',');
  }

  lemma JoinedIsPieces(ts: seq<string>)
    requires |ts| >= 1
    ensures Join(ts, ", ") == Join(Pieces(ts), ",")
  {
    JoinCommaSpace(ts[0], ts[1..]);
    assert [ts[0]] + ts[1..] == ts;
  }

  lemma PiecesFreeOfComma(ts: seq<string>)
    requires |ts| >= 1
    requires forall i :: 0 <= i < |ts| ==> CleanToken(ts[i])
    ensures FreeOf(Pieces(ts), ',')
  {
    var pieces := Pieces(ts);
    forall i | 0 <= i < |pieces| ensures ',' !in pieces[i] {
      if i > 0 {
        assert pieces[i] == " " + ts[i] by {
          assert pieces[i] == Spaced(ts[1..])[i - 1];
        }
        SpacedFreeOfComma(ts[i]);
      } else {
        assert pieces[0] == ts[0];
      }
    }
  }

  lemma SpacedFreeOfComma(t: string)
    requires ',' !in t
    ensures ',' !in " " + t
  {
    assert forall c :: c in " " + t ==> c == ' ' || c in t;
  }

  lemma NormalizePiece(ts: seq<string>, i: nat)
    requires i < |ts|
    requires CleanToken(ts[i])
    ensures Normalize(Pieces(ts)[i]) == ts[i]
  {
    var t := ts[i];
    if i == 0 {
      assert Pieces(ts)[i] == t;
      NormalizeClean(t);
    } else {
      assert Pieces(ts)[i] == " " + t by {
        assert Pieces(ts)[i] == Spaced(ts[1..])[i - 1];
      }
      NormalizeClean(t);
    }
  }

  lemma NormalizePiecesPointwise(ts: seq<string>)
    requires |ts| >= 1
    requires forall i :: 0 <= i < |ts| ==> CleanToken(ts[i])
    ensures forall i :: 0 <= i < |ts| ==> NormalizeAll(Pieces(ts))[i] == ts[i]
  {
    forall i | 0 <= i < |ts| ensures NormalizeAll(Pieces(ts))[i] == ts[i] {
      NormalizePiece(ts, i);
    }
  }

  lemma NormalizePieces(ts: seq<string>)
    requires |ts| >= 1
    requires forall i :: 0 <= i < |ts| ==> CleanToken(ts[i])
    ensures NormalizeAll(Pieces(ts)) == ts
  {
    NormalizePiecesPointwise(ts);
    SameElements(NormalizeAll(Pieces(ts)), ts);
  }

  lemma SameElements(a: seq<string>, b: seq<string>)
    requires |a| == |b|
    requires forall i :: 0 <= i < |a| ==> a[i] == b[i]
    ensures a == b
  {
  }

  /** Splitting the ", "-joined clean tokens at commas and normalising the
      pieces gives the tokens back. */
  lemma NormalizeJoinedTokens(ts: seq<string>)
    requires |ts| >= 1
    requires forall i :: 0 <= i < |ts| ==> CleanToken(ts[i])
    ensures NormalizeAll(Split(Join(ts, ", "), ',')) == ts
  {
    SplitJoinedTokens(ts);
    NormalizePieces(ts);
  }

  /** Recording the entry tokens of printable keys adds exactly the written
      entries to the accumulator and leaves the bits alone. */
  lemma {:induction false} RecordEntryTokens(fs: FlagSet, acc: FlagSet, order: seq<Flag>)
    requires forall k :: k in fs.flags ==> PrintableKey(k)
    ensures var r := RecordAll(acc, EntryTokens(fs, order));
      && r.all == acc.all && r.none == acc.none
      && (forall k :: k in r.flags <==> k in acc.flags || (k in order && Emits(fs, k)))
      && (forall k :: k in r.flags ==>
            r.flags[k] == if k in order && Emits(fs, k) then fs.flags[k] else acc.flags[k])
    decreases |order|
  {
    if |order| > 0 {
      var k0, rest := order[0], order[1..];
      assert order == [k0] + rest;
      var tail := EntryTokens(fs, rest);
      if Emits(fs, k0) {
        var t := Token(k0, fs.flags[k0]);
        TokenOfPrintableKey(k0, fs.flags[k0]);
        assert EntryTokens(fs, order) == [t] + tail;
        assert ([t] + tail)[1..] == tail;
        var acc' := Record(acc, t);
        assert acc'.flags == acc.flags[k0 := fs.flags[k0]];
        RecordEntryTokens(fs, acc', rest);
      } else {
        assert EntryTokens(fs, order) == tail;
        RecordEntryTokens(fs, acc, rest);
      }
    }
  }

  /** A set with the `none` bit (and not `all`) prints as "none", which parses
      back to a set that enables nothing. */
  lemma RoundTripNone(fs: FlagSet, order: seq<Flag>, f: Flag)
    requires Enumerates(order, fs.flags.Keys)
    requires fs.none && !fs.all
    ensures !IsEnabled(FromCSV(String(fs, order)), f) && !IsEnabled(fs, f)
  {
    SplitWithoutSeparator(FlagNone, ',');
    NormalizeClean(FlagNone);
    assert NormalizeAll([FlagNone]) == [FlagNone];
    assert RecordAll(Empty, [FlagNone]) == RecordAll(Record(Empty, FlagNone), []);
  }

  /** With neither bit and no entry, the output is the empty string, which
      parses to the single entry "" enabled. */
  lemma RoundTripEmpty(fs: FlagSet, order: seq<Flag>, f: Flag)
    requires Enumerates(order, fs.flags.Keys)
    requires !fs.none && |Tokens(fs, order)| == 0
    requires forall k :: k in fs.flags ==> PrintableKey(k)
    requires f != ""
    ensures !IsEnabled(FromCSV(String(fs, order)), f) && !IsEnabled(fs, f)
  {
    RecordEntryTokens(fs, Empty, order);
    assert fs.flags == map[];
    assert String(fs, order) == "";
    NormalizeClean("");
    assert NormalizeAll([""]) == [""];
    assert RecordAll(Empty, [""]) == RecordAll(Record(Empty, ""), []);
  }

  /** Otherwise the output is the ", "-joined tokens, which parse back to
      entries and bits that give every flag its original verdict. */
  lemma RoundTripTokens(fs: FlagSet, order: seq<Flag>, f: Flag)
    requires Enumerates(order, fs.flags.Keys)
    requires !fs.none && |Tokens(fs, order)| >= 1
    requires forall k :: k in fs.flags ==> PrintableKey(k)
    ensures IsEnabled(FromCSV(String(fs, order)), f) <==> IsEnabled(fs, f)
  {
    TokensAllClean(fs, order);
    ParsePrintedTokens(fs, order);
    RecordTokensVerdict(fs, order, f);
  }

  /** Every token `String` joins is clean when every key is printable. */
  lemma TokensAllClean(fs: FlagSet, order: seq<Flag>)
    requires forall k :: k in fs.flags ==> PrintableKey(k)
    ensures forall i :: 0 <= i < |Tokens(fs, order)| ==> CleanToken(Tokens(fs, order)[i])
  {
    var ts := Tokens(fs, order);
    var body := EntryTokens(fs, order);
    TokensClean(fs, order);
    if fs.all {
      assert ts == [FlagAll] + body;
      assert CleanToken(FlagAll);
      forall i | 0 <= i < |ts| ensures CleanToken(ts[i]) {
        if i > 0 { assert ts[i] == body[i - 1]; }
      }
    } else {
      assert ts == body;
    }
  }

  /** Recording the tokens `String` joins, from the empty set, gives every
      flag the verdict it has in the printed set. */
  lemma RecordTokensVerdict(fs: FlagSet, order: seq<Flag>, f: Flag)
    requires Enumerates(order, fs.flags.Keys)
    requires !fs.none
    requires forall k :: k in fs.flags ==> PrintableKey(k)
    ensures IsEnabled(RecordAll(Empty, Tokens(fs, order)), f) <==> IsEnabled(fs, f)
  {
    var body := EntryTokens(fs, order);
    if fs.all {
      var acc := Record(Empty, FlagAll);
      assert RecordAll(Empty, Tokens(fs, order)) == RecordAll(acc, body) by {
        assert Tokens(fs, order) == [FlagAll] + body;
        assert ([FlagAll] + body)[1..] == body;
      }
      assert acc.all && !acc.none && acc.flags == map[FlagAll := true];
      RecordEntryTokens(fs, acc, order);
    } else {
      assert Tokens(fs, order) == body;
      RecordEntryTokens(fs, Empty, order);
    }
  }

  lemma ParsePrintedTokens(fs: FlagSet, order: seq<Flag>)
    requires Enumerates(order, fs.flags.Keys)
    requires !fs.none && |Tokens(fs, order)| >= 1
    requires forall i :: 0 <= i < |Tokens(fs, order)| ==> CleanToken(Tokens(fs, order)[i])
    ensures FromCSV(String(fs, order)) == RecordAll(Empty, Tokens(fs, order))
  {
    NormalizeJoinedTokens(Tokens(fs, order));
  }

  /** With both bits set the round trip fails: `String` tests `none` first
      and writes "none", while IsEnabled lets `all` win, so every flag that
      was on comes back off. */
  lemma RoundTripBothBits(fs: FlagSet, order: seq<Flag>, f: Flag)
    requires Enumerates(order, fs.flags.Keys)
    requires fs.all && fs.none && !ExplicitlyDisabled(fs, f)
    ensures IsEnabled(fs, f) && !IsEnabled(FromCSV(String(fs, order)), f)
  {
    SplitWithoutSeparator(FlagNone, ',');
    NormalizeClean(FlagNone);
    assert NormalizeAll([FlagNone]) == [FlagNone];
    assert RecordAll(Empty, [FlagNone]) == RecordAll(Record(Empty, FlagNone), []);
  }

  /** Printing a flag set and parsing the text back preserves the verdict on
      every non-empty flag, for any map iteration order, provided the two bits
      are not both set and every key is printable. */
  lemma RoundTrip(fs: FlagSet, order: seq<Flag>, f: Flag)
    requires Enumerates(order, fs.flags.Keys)
    requires !(fs.all && fs.none)
    requires forall k :: k in fs.flags ==> PrintableKey(k)
    requires f != ""
    ensures IsEnabled(FromCSV(String(fs, order)), f) <==> IsEnabled(fs, f)
  {
    if fs.none {
      RoundTripNone(fs, order, f);
    } else if |Tokens(fs, order)| == 0 {
      RoundTripEmpty(fs, order, f);
    } else {
      RoundTripTokens(fs, order, f);
    }
  }
}
