/** The row plumbing of the lemmatizer script: reading the log in fixed-size chunks,
    padding the lemmatized tokens so that the joined texts split back into as many
    texts as went in, putting the texts back into their rows, and the output name. */
module Lemmatizer {
  import opened Strings
  import opened Seqs
  import opened Schema

  const TextColumnIndex: nat := 5
  const TypeColumnIndex: nat := 2
  /** The string the chat texts of a chunk are joined with before lemmatization. */
  const SeparatorForJoin: string := " ix3uzumgm9jtf6pq "
  /** `SEPARATOR_FOR_JOIN.strip()`: the separator as the lemmatizer returns it, as a token. */
  const SeparatorWord: string := "ix3uzumgm9jtf6pq"
  const ChunkSize: nat := 20000

  lemma SeparatorShape()
    ensures SeparatorForJoin == " " + SeparatorWord + " "
    ensures |SeparatorWord| == 16 && |SeparatorForJoin| == 18
    ensures forall k :: 0 <= k < |SeparatorWord| ==> SeparatorWord[k] != ' '
  {
  }

  // ---------------------------------------------------------------------------
  // parse_csv and the chunk loop

  function Min(a: int, b: int): int
  {
    if a <= b then a else b
  }

  /** Chunk k of the file: the rows with index in [ChunkSize * k, ChunkSize * (k + 1)). */
  function Chunk(file: seq<Row>, k: nat): (r: seq<Row>)
    ensures |r| <= ChunkSize
    ensures ChunkSize * k < |file| ==> |r| >= 1
  {
    file[Min(ChunkSize * k, |file|)..Min(ChunkSize * (k + 1), |file|)]
  }

  /** The chunks 0 .. n - 1, one after the other. */
  function Chunks(file: seq<Row>, n: nat): seq<Row>
  {
    if n == 0 then [] else Chunks(file, n - 1) + Chunk(file, n - 1)
  }

  /** Successive chunks are adjacent: together the first n are the first
      ChunkSize * n rows; so once ChunkSize * n reaches the row count they are the file. */
  lemma {:induction false} ChunksArePrefix(file: seq<Row>, n: nat)
    ensures Chunks(file, n) == file[..Min(ChunkSize * n, |file|)]
    ensures ChunkSize * n >= |file| ==> Chunks(file, n) == file
  {
    if n > 0 {
      ChunksArePrefix(file, n - 1);
      assert ChunkSize * (n - 1) + ChunkSize == ChunkSize * n;
      assert file[..Min(ChunkSize * (n - 1), |file|)] + Chunk(file, n - 1) == file[..Min(ChunkSize * n, |file|)];
    }
    assert file[..|file|] == file;
  }

  /** The reader behind `parse_csv`: the global `chunk_counter` is its state. */
  class ChunkReader {
    var chunkCounter: nat

    constructor ()
      ensures chunkCounter == 0
    {
      chunkCounter := 0;
    }

    /** `parse_csv`: scans the whole file, keeping the rows of the current chunk, then
        moves on to the next chunk. */
    method ParseCsv(file: seq<Row>) returns (parsedCsv: seq<Row>)
      modifies this
      ensures parsedCsv == Chunk(file, old(chunkCounter))
      ensures chunkCounter == old(chunkCounter) + 1
    {
      var lo, hi := ChunkSize * chunkCounter, ChunkSize * (chunkCounter + 1);
      parsedCsv := [];
      for i := 0 to |file|
        invariant parsedCsv == file[Min(lo, i)..Min(hi, i)]
      {
        if lo <= i < hi {
          parsedCsv := parsedCsv + [file[i]];
        }
      }
      chunkCounter := chunkCounter + 1;
    }
  }

  /** The chunk loop of `main` without the lemmatization: while the chunks read so far
      do not reach the row count, read the next one. The chunks make up the file. */
  method ReadAllChunks(file: seq<Row>) returns (all: seq<Row>)
    ensures all == file
  {
    var reader := new ChunkReader();
    all := [];
    while ChunkSize * reader.chunkCounter < |file|
      invariant all == Chunks(file, reader.chunkCounter)
      decreases |file| - ChunkSize * reader.chunkCounter
    {
      var parsedCsv := reader.ParseCsv(file);
      all := all + parsedCsv;
    }
    ChunksArePrefix(file, reader.chunkCounter);
  }

  // ---------------------------------------------------------------------------
  // map_func: padding the tokens

  /** `map_func` as written: a separator at index 0 gets a leading space; the last token
      a trailing one; a separator after a separator a leading one. Python's
      `tokens[index - 1]` at index 0 reads the last token. */
  function MapTokenAsWritten(tokens: seq<string>, index: nat): string
    requires index < |tokens|
  {
    var value := tokens[index];
    if index == 0 && value == SeparatorWord then " " + value
    else
      var last := index == |tokens| - 1;
      var previous := if index == 0 then tokens[|tokens| - 1] else tokens[index - 1];
      var shouldPad := tokens[index] == SeparatorWord && previous == SeparatorWord;
      if shouldPad && last then " " + value + " "
      else if last then value + " "
      else if shouldPad then " " + value
      else value
  }

  function MapTokensAsWritten(tokens: seq<string>): (r: seq<string>)
    ensures |r| == |tokens|
  {
    seq(|tokens|, i requires 0 <= i < |tokens| => MapTokenAsWritten(tokens, i))
  }

  /** A separator token needs a leading space when it opens the list or follows another
      separator: there the text it ends is empty. */
  predicate Pad(tokens: seq<string>, index: nat)
    requires index < |tokens|
  {
    tokens[index] == SeparatorWord && (index == 0 || tokens[index - 1] == SeparatorWord)
  }

  function Core(tokens: seq<string>, index: nat): string
    requires index < |tokens|
  {
    (if Pad(tokens, index) then " " else "") + tokens[index]
  }

  /** `map_func` with the first-token case fixed: the last token always gets its
      trailing space, also when it is a separator at index 0. */
  function MapToken(tokens: seq<string>, index: nat): string
    requires index < |tokens|
  {
    Core(tokens, index) + (if index == |tokens| - 1 then " " else "")
  }

  function MapTokens(tokens: seq<string>): (r: seq<string>)
    ensures |r| == |tokens|
  {
    seq(|tokens|, i requires 0 <= i < |tokens| => MapToken(tokens, i))
  }

  /** The fixed padding differs from the written one only on the list made of one
      separator token. */
  lemma MapTokenAgrees(tokens: seq<string>, index: nat)
    requires index < |tokens|
    requires !(|tokens| == 1 && tokens[0] == SeparatorWord)
    ensures MapToken(tokens, index) == MapTokenAsWritten(tokens, index)
  {
  }

  lemma MapTokensAgree(tokens: seq<string>)
    requires !(|tokens| == 1 && tokens[0] == SeparatorWord)
    ensures MapTokens(tokens) == MapTokensAsWritten(tokens)
  {
    forall i | 0 <= i < |tokens|
      ensures MapTokens(tokens)[i] == MapTokensAsWritten(tokens)[i]
    {
      MapTokenAgrees(tokens, i);
    }
  }

  /** The text `lemmatize_text` returns for the filtered tokens. */
  function LemmatizedText(tokens: seq<string>): string
  {
    Join(MapTokens(tokens), " ")
  }

  function LemmatizedTextAsWritten(tokens: seq<string>): string
  {
    Join(MapTokensAsWritten(tokens), " ")
  }

  /** `main`'s `lemmatized_text.split(SEPARATOR_FOR_JOIN)`. */
  function SplitTexts(text: string): (r: seq<string>)
    ensures |r| >= 1
  {
    SplitOn(text, SeparatorForJoin)
  }

  /** A chunk without chat texts: the padded text is empty and still splits into one
      piece, so the piece count exceeds the message count. */
  lemma NoChatsOnePiece()
    ensures SplitTexts(LemmatizedText([])) == [""]
  {
    assert MapTokens([]) == [];
    assert Join([], " ") == "";
  }

  /** Two empty messages make the joined text the separator alone, which the lemmatizer
      turns into the one token `[separator]`; as written the padding then yields one
      text, not two, and `main` stops on the count mismatch. */
  lemma SingleSeparatorLosesText()
    ensures Occ([SeparatorWord], SeparatorWord) + 1 == 2
    ensures LemmatizedTextAsWritten([SeparatorWord]) == " " + SeparatorWord
    ensures |SplitTexts(LemmatizedTextAsWritten([SeparatorWord]))| == 1
    ensures |SplitTexts(LemmatizedText([SeparatorWord]))| == 2
  {
    var ts := [SeparatorWord];
    assert Occ(ts, SeparatorWord) == Occ(ts[..0], SeparatorWord) + 1;
    assert MapTokensAsWritten(ts) == [" " + SeparatorWord];
    ShortNotSplit(" " + SeparatorWord, SeparatorForJoin);
    assert MapTokens(ts) == [" " + SeparatorWord + " "];
    assert LemmatizedText(ts) == SeparatorForJoin;
    assert SplitTexts(SeparatorForJoin) == ["", ""] by {
      assert Join(["", ""], SeparatorForJoin) == SeparatorForJoin by {
        assert ["", ""][1..] == [""];
      }
      SplitJoin(["", ""], SeparatorForJoin);
    }
  }

  // ---------------------------------------------------------------------------
  // The join/split round trip

  /** A lemmatizer token: not empty and without spaces (the filter drops `" "` and, by
      stripping, all-blank tokens). */
  predicate Token(t: string)
  {
    |t| > 0 && forall k :: 0 <= k < |t| ==> t[k] != ' '
  }

  predicate Word(t: string)
  {
    Token(t) && t != SeparatorWord
  }

  predicate AllWords(ws: seq<string>)
  {
    forall k :: 0 <= k < |ws| ==> Word(ws[k])
  }

  /** The words of each message: the tokens cut at the separator tokens. */
  function Groups(tokens: seq<string>): (g: seq<seq<string>>)
    ensures |g| >= 1
    decreases |tokens|
  {
    if |tokens| == 0 then [[]]
    else
      var g := Groups(tokens[..|tokens| - 1]);
      var t := tokens[|tokens| - 1];
      if t == SeparatorWord then g + [[]] else g[..|g| - 1] + [g[|g| - 1] + [t]]
  }

  /** One group more than there are separator tokens. */
  lemma {:induction false} GroupsCount(tokens: seq<string>)
    ensures |Groups(tokens)| == Occ(tokens, SeparatorWord) + 1
    decreases |tokens|
  {
    if |tokens| > 0 {
      GroupsCount(tokens[..|tokens| - 1]);
    }
  }

  /** The groups hold words only. */
  lemma {:induction false} GroupsWords(tokens: seq<string>)
    requires forall i :: 0 <= i < |tokens| ==> Token(tokens[i])
    ensures forall j :: 0 <= j < |Groups(tokens)| ==> AllWords(Groups(tokens)[j])
    decreases |tokens|
  {
    if |tokens| > 0 {
      var init := tokens[..|tokens| - 1];
      GroupsWords(init);
      var g := Groups(init);
      var t := tokens[|tokens| - 1];
      if t != SeparatorWord {
        assert AllWords(g[|g| - 1] + [t]);
      }
    }
  }

  /** The text a group becomes: its words joined by spaces; the last group also keeps
      the last token's trailing space. */
  function GroupText(g: seq<string>, last: bool): string
  {
    if !last then Join(g, " ") else if |g| > 0 then Join(g, " ") + " " else ""
  }

  function GroupTexts(gs: seq<seq<string>>): (r: seq<string>)
    ensures |r| == |gs|
  {
    seq(|gs|, j requires 0 <= j < |gs| => GroupText(gs[j], j == |gs| - 1))
  }

  function CoreSeq(tokens: seq<string>): (r: seq<string>)
    ensures |r| == |tokens|
  {
    seq(|tokens|, i requires 0 <= i < |tokens| => Core(tokens, i))
  }

  lemma CoreSeqSnoc(tokens: seq<string>, t: string)
    ensures CoreSeq(tokens + [t]) == CoreSeq(tokens) + [Core(tokens + [t], |tokens|)]
  {
    var u := tokens + [t];
    forall i | 0 <= i < |tokens|
      ensures Core(u, i) == Core(tokens, i)
    {
      assert u[i] == tokens[i];
      if i > 0 {
        assert u[i - 1] == tokens[i - 1];
      }
    }
  }

  lemma LemmatizedTextIsCores(tokens: seq<string>)
    requires |tokens| > 0
    ensures LemmatizedText(tokens) == Join(CoreSeq(tokens), " ") + " "
  {
    var c := CoreSeq(tokens);
    var n := |tokens|;
    forall i | 0 <= i < n
      ensures MapTokens(tokens)[i] == (c[..n - 1] + [c[n - 1] + " "])[i]
    {
      if i < n - 1 {
        assert MapToken(tokens, i) == Core(tokens, i) + "";
      }
    }
    assert MapTokens(tokens) == c[..n - 1] + [c[n - 1] + " "];
    JoinExtendLast(c, " ", " ");
  }

  /** The last group is empty exactly when the last token is a separator. */
  lemma LastGroup(tokens: seq<string>)
    requires |tokens| > 0
    ensures var g := Groups(tokens);
            (tokens[|tokens| - 1] == SeparatorWord ==> g[|g| - 1] == [])
            && (tokens[|tokens| - 1] != SeparatorWord ==> |g[|g| - 1]| > 0)
  {
    var g := Groups(tokens[..|tokens| - 1]);
    var t := tokens[|tokens| - 1];
    if t == SeparatorWord {
      assert Groups(tokens) == g + [[]];
    } else {
      assert Groups(tokens) == g[..|g| - 1] + [g[|g| - 1] + [t]];
    }
  }

  lemma GroupsSnoc(init: seq<string>, t: string)
    ensures var g := Groups(init);
            Groups(init + [t]) == if t == SeparatorWord then g + [[]] else g[..|g| - 1] + [g[|g| - 1] + [t]]
  {
    assert (init + [t])[..|init|] == init;
  }

  /** A word token extends the text of the last message by itself and a space. */
  lemma WordStep(g: seq<seq<string>>, t: string, sep: string)
    requires |g| > 0
    ensures var k := |g| - 1;
            Join(GroupTexts(g[..k] + [g[k] + [t]]), sep) == Join(GroupTexts(g), sep) + t + " "
  {
    var k := |g| - 1;
    var h := g[..k] + [g[k] + [t]];
    var ps := GroupTexts(g);
    if |g[k]| > 0 {
      JoinSnoc(g[k], t, " ");
    } else {
      assert g[k] + [t] == [t];
    }
    assert GroupText(h[k], true) == GroupText(g[k], true) + t + " ";
    forall j | 0 <= j < k
      ensures GroupTexts(h)[j] == ps[j]
    {
      assert h[j] == g[j];
    }
    assert GroupTexts(h)[k] == ps[k] + (t + " ");
    assert GroupTexts(h) == ps[..k] + [ps[k] + (t + " ")];
    JoinExtendLast(ps, t + " ", sep);
    assert Join(ps, sep) + (t + " ") == Join(ps, sep) + t + " ";
  }

  /** A separator after a separator (its core is " " + separator) opens a new, empty
      message after an empty one. */
  lemma EmptyStep(g: seq<seq<string>>)
    requires |g| > 0 && g[|g| - 1] == []
    ensures Join(GroupTexts(g + [[]]), SeparatorForJoin) == Join(GroupTexts(g), SeparatorForJoin) + " " + SeparatorWord + " "
  {
    var k := |g| - 1;
    assert GroupText(g[k], false) == "" == GroupText(g[k], true);
    assert GroupTexts(g + [[]]) == GroupTexts(g) + [""];
    JoinSnoc(GroupTexts(g), "", SeparatorForJoin);
  }

  /** A separator after a word closes the last message, whose trailing space becomes the
      separator's leading one. */
  lemma CloseStep(g: seq<seq<string>>)
    requires |g| > 0 && |g[|g| - 1]| > 0
    ensures Join(GroupTexts(g + [[]]), SeparatorForJoin) == Join(GroupTexts(g), SeparatorForJoin) + SeparatorWord + " "
  {
    var k := |g| - 1;
    var ps := GroupTexts(g);
    var a := ps[..k] + [Join(g[k], " ")];
    var h := g + [[]];
    forall j | 0 <= j < k
      ensures GroupTexts(h)[j] == a[j]
    {
      assert h[j] == g[j];
    }
    assert GroupTexts(h)[k] == a[k];
    assert GroupTexts(h) == a + [""];
    JoinSnoc(a, "", SeparatorForJoin);
    assert a[..k] + [a[k] + " "] == ps;
    JoinExtendLast(a, " ", SeparatorForJoin);
  }

  lemma ConcatAssoc(a: string, b: string, c: string)
    ensures a + b + c == a + (b + c)
  {
  }

  /** The core of a token appended to a non-empty list, by the three padding cases. */
  lemma CoreOfSnoc(init: seq<string>, t: string)
    requires |init| > 0
    ensures Core(init + [t], |init|)
         == if t != SeparatorWord then t
            else if init[|init| - 1] == SeparatorWord then " " + SeparatorWord
            else SeparatorWord
  {
    var u := init + [t];
    assert u[|init|] == t && u[|init| - 1] == init[|init| - 1];
  }

  /** One more token extends the joined group texts by its padded form. */
  lemma GroupStep(init: seq<string>, t: string)
    requires |init| > 0
    ensures Join(GroupTexts(Groups(init + [t])), SeparatorForJoin)
         == Join(GroupTexts(Groups(init)), SeparatorForJoin) + Core(init + [t], |init|) + " "
  {
    var n := |init|;
    var g := Groups(init);
    LastGroup(init);
    GroupsSnoc(init, t);
    CoreOfSnoc(init, t);
    if t != SeparatorWord {
      WordStep(g, t, SeparatorForJoin);
    } else if init[n - 1] == SeparatorWord {
      EmptyStep(g);
      ConcatAssoc(Join(GroupTexts(g), SeparatorForJoin), " ", SeparatorWord);
    } else {
      CloseStep(g);
    }
  }

  /** Step of the round trip: the padded text so far is the join of the group texts. */
  lemma {:induction false} CoresAreGroups(tokens: seq<string>)
    requires |tokens| > 0
    ensures Join(CoreSeq(tokens), " ") + " " == Join(GroupTexts(Groups(tokens)), SeparatorForJoin)
    decreases |tokens|
  {
    var n := |tokens|;
    var t := tokens[n - 1];
    var init := tokens[..n - 1];
    assert tokens == init + [t];
    if n == 1 {
      assert CoreSeq(tokens) == [Core(tokens, 0)];
      assert Groups(init) == [[]];
      if t == SeparatorWord {
        assert Groups(tokens) == [[], []];
        assert GroupTexts(Groups(tokens)) == ["", ""];
        assert ["", ""][1..] == [""];
      } else {
        assert Groups(tokens) == [[t]];
        assert GroupTexts(Groups(tokens)) == [t + " "];
      }
    } else {
      CoresAreGroups(init);
      CoreSeqSnoc(init, t);
      JoinSnoc(CoreSeq(init), Core(tokens, n - 1), " ");
      GroupStep(init, t);
    }
  }

  /** The padded text is the group texts joined with the separator. */
  lemma LemmatizedTextIsJoinOfGroups(tokens: seq<string>)
    ensures LemmatizedText(tokens) == Join(GroupTexts(Groups(tokens)), SeparatorForJoin)
  {
    if |tokens| == 0 {
      assert GroupTexts(Groups(tokens)) == [""];
    } else {
      LemmatizedTextIsCores(tokens);
      CoresAreGroups(tokens);
    }
  }

  /** A space followed by a word and a space never starts the separator. */
  lemma WordNotSeparator(w: string, y: string)
    requires Word(w)
    ensures !(SeparatorForJoin <= " " + w + " " + y)
  {
    SeparatorShape();
    var z := " " + w + " " + y;
    if |w| < 16 {
      assert z[1 + |w|] == ' ' != SeparatorWord[|w|] == SeparatorForJoin[1 + |w|];
    } else if |w| > 16 {
      assert z[17] == w[16] != ' ' == SeparatorForJoin[17];
    } else {
      assert z[1..17] == w != SeparatorWord == SeparatorForJoin[1..17];
    }
  }

  /** No separator starts inside words joined by spaces, whatever follows the next space. */
  lemma {:induction false} WordsSafe(ws: seq<string>, y: string)
    requires |ws| > 0 && AllWords(ws)
    ensures NoMatchBefore(Join(ws, " ") + " " + y, SeparatorForJoin, |Join(ws, " ")|)
    decreases |ws|
  {
    var n := |ws|;
    var w := ws[n - 1];
    var s := Join(ws, " ") + " " + y;
    if n == 1 {
      assert Join(ws, " ") == w;
      forall q | 0 <= q < |w|
        ensures !(SeparatorForJoin <= s[q..])
      {
        assert s[q..][0] == w[q];
      }
    } else {
      var init := ws[..n - 1];
      assert init + [w] == ws;
      JoinSnoc(init, w, " ");
      var ji := Join(init, " ");
      var y' := w + " " + y;
      assert AllWords(init);
      WordsSafe(init, y');
      assert s == ji + " " + y';
      forall q | 0 <= q < |Join(ws, " ")|
        ensures !(SeparatorForJoin <= s[q..])
      {
        if q < |ji| {
        } else if q == |ji| {
          assert s[q..] == " " + w + " " + y;
          WordNotSeparator(w, y);
        } else {
          assert s[q..][0] == w[q - |ji| - 1];
        }
      }
    }
  }

  /** The conditions under which splitting a join gives back the parts hold for the
      group texts. */
  lemma GroupTextsSplittable(gs: seq<seq<string>>)
    requires |gs| > 0 && forall j :: 0 <= j < |gs| ==> AllWords(gs[j])
    ensures var ps := GroupTexts(gs);
            && (forall i :: 0 <= i < |ps| - 1 ==> NoMatchBefore(ps[i] + SeparatorForJoin, SeparatorForJoin, |ps[i]|))
            && NoMatchBefore(ps[|ps| - 1], SeparatorForJoin, |ps[|ps| - 1]|)
  {
    var ps := GroupTexts(gs);
    SeparatorShape();
    forall i | 0 <= i < |ps| - 1
      ensures NoMatchBefore(ps[i] + SeparatorForJoin, SeparatorForJoin, |ps[i]|)
    {
      if |gs[i]| > 0 {
        WordsSafe(gs[i], SeparatorWord + " ");
        assert ps[i] + SeparatorForJoin == Join(gs[i], " ") + " " + (SeparatorWord + " ");
      }
    }
    var g := gs[|gs| - 1];
    if |g| > 0 {
      WordsSafe(g, "");
      var j := Join(g, " ");
      assert ps[|ps| - 1] == j + " " + "";
      assert (j + " ")[|j|..] == " ";
    }
  }

  /** The round trip: for lemmatizer tokens, splitting the padded text on the separator
      gives one text per message, the k-th holding the words between the k-th and the
      (k+1)-th separator token; so there is one text more than separator tokens. */
  lemma JoinSplitRoundTrip(tokens: seq<string>)
    requires forall i :: 0 <= i < |tokens| ==> Token(tokens[i])
    ensures SplitTexts(LemmatizedText(tokens)) == GroupTexts(Groups(tokens))
    ensures |SplitTexts(LemmatizedText(tokens))| == Occ(tokens, SeparatorWord) + 1
  {
    LemmatizedTextIsJoinOfGroups(tokens);
    GroupsWords(tokens);
    GroupTextsSplittable(Groups(tokens));
    SeparatorShape();
    SplitJoin(GroupTexts(Groups(tokens)), SeparatorForJoin);
    GroupsCount(tokens);
  }

  /** As written, the round trip holds for every token list except `[separator]`. */
  lemma JoinSplitRoundTripAsWritten(tokens: seq<string>)
    requires forall i :: 0 <= i < |tokens| ==> Token(tokens[i])
    requires !(|tokens| == 1 && tokens[0] == SeparatorWord)
    ensures |SplitTexts(LemmatizedTextAsWritten(tokens))| == Occ(tokens, SeparatorWord) + 1
  {
    MapTokensAgree(tokens);
    JoinSplitRoundTrip(tokens);
  }

  // ---------------------------------------------------------------------------
  // add_lemmatized_texts

  predicate IsChatRow(row: Row)
    requires |row| > TypeColumnIndex
  {
    row[TypeColumnIndex] == "chat"
  }

  predicate HasType(rows: seq<Row>)
  {
    forall k :: 0 <= k < |rows| ==> |rows[k]| > TypeColumnIndex
  }

  /** The number of chat rows. */
  function NumChats(rows: seq<Row>): (n: nat)
    requires HasType(rows)
    ensures n <= |rows|
    decreases |rows|
  {
    if |rows| == 0 then 0
    else NumChats(rows[..|rows| - 1]) + (if IsChatRow(rows[|rows| - 1]) then 1 else 0)
  }

  lemma NumChatsSnoc(rows: seq<Row>, k: nat)
    requires HasType(rows) && k < |rows|
    ensures NumChats(rows[..k + 1]) == NumChats(rows[..k]) + (if IsChatRow(rows[k]) then 1 else 0)
  {
    assert rows[..k + 1][..k] == rows[..k];
  }

  lemma {:induction false} NumChatsMonotone(rows: seq<Row>, i: nat, j: nat)
    requires HasType(rows) && i <= j <= |rows|
    ensures NumChats(rows[..i]) <= NumChats(rows[..j])
    decreases j - i
  {
    if i < j {
      NumChatsMonotone(rows, i, j - 1);
      NumChatsSnoc(rows, j - 1);
    }
  }

  /** The chat rows get distinct, increasing positions in the list of lemmatized
      texts, every one of which is used. */
  lemma ChatPositions(rows: seq<Row>, i: nat, j: nat)
    requires HasType(rows) && i < j < |rows| && IsChatRow(rows[i])
    ensures NumChats(rows[..i]) < NumChats(rows[..j])
    ensures NumChats(rows[..i]) < NumChats(rows)
  {
    NumChatsSnoc(rows, i);
    NumChatsMonotone(rows, i + 1, j);
    NumChatsMonotone(rows, i + 1, |rows|);
    assert rows[..|rows|] == rows;
  }

  lemma {:induction false} EveryTextUsed(rows: seq<Row>, m: nat)
    requires HasType(rows) && m < NumChats(rows)
    ensures exists k :: 0 <= k < |rows| && IsChatRow(rows[k]) && NumChats(rows[..k]) == m
    decreases |rows|
  {
    var n := |rows|;
    var init := rows[..n - 1];
    assert rows[..n - 1] == init;
    if m < NumChats(init) {
      EveryTextUsed(init, m);
      var k :| 0 <= k < |init| && IsChatRow(init[k]) && NumChats(init[..k]) == m;
      assert rows[..k] == init[..k];
    } else {
      assert IsChatRow(rows[n - 1]) && NumChats(rows[..n - 1]) == m;
    }
  }

  /** Row k after the texts are added: a chat row gets the text at its position among
      the chat rows, any other row stays as it is. */
  function WithText(rows: seq<Row>, texts: seq<string>, k: nat): Row
    requires HasType(rows) && k < |rows| && NumChats(rows) <= |texts|
  {
    if IsChatRow(rows[k]) then
      ChatPositionInRange(rows, k);
      rows[k] + [texts[NumChats(rows[..k])]]
    else rows[k]
  }

  lemma ChatPositionInRange(rows: seq<Row>, k: nat)
    requires HasType(rows) && k < |rows| && IsChatRow(rows[k])
    ensures NumChats(rows[..k]) < NumChats(rows)
  {
    NumChatsSnoc(rows, k);
    NumChatsMonotone(rows, k + 1, |rows|);
    assert rows[..|rows|] == rows;
  }

  /** `add_lemmatized_texts`: appends to the k-th chat row the k-th lemmatized text, in
      place, leaving the other rows as they are, and returns the same list. */
  method AddLemmatizedTexts(parsedCsv: array<Row>, lemmatizedTextsList: seq<string>) returns (r: array<Row>)
    requires HasType(parsedCsv[..])
    requires NumChats(parsedCsv[..]) <= |lemmatizedTextsList|
    modifies parsedCsv
    ensures r == parsedCsv
    ensures forall k :: 0 <= k < parsedCsv.Length ==> parsedCsv[k] == WithText(old(parsedCsv[..]), lemmatizedTextsList, k)
  {
    ghost var rows := parsedCsv[..];
    var counter := 0;
    for k := 0 to parsedCsv.Length
      invariant counter == NumChats(rows[..k])
      invariant forall m :: k <= m < parsedCsv.Length ==> parsedCsv[m] == rows[m]
      invariant forall m :: 0 <= m < k ==> parsedCsv[m] == WithText(rows, lemmatizedTextsList, m)
    {
      NumChatsSnoc(rows, k);
      var row := parsedCsv[k];
      if row[TypeColumnIndex] == "chat" {
        ChatPositionInRange(rows, k);
        parsedCsv[k] := row + [lemmatizedTextsList[counter]];
        counter := counter + 1;
      }
    }
    r := parsedCsv;
  }

  /** Every row keeps its fields; chat rows gain exactly one, the text column. */
  lemma WithTextShape(rows: seq<Row>, texts: seq<string>, k: nat)
    requires HasType(rows) && k < |rows| && NumChats(rows) <= |texts|
    ensures WithText(rows, texts, k)[..|rows[k]|] == rows[k]
    ensures |WithText(rows, texts, k)| == |rows[k]| + (if IsChatRow(rows[k]) then 1 else 0)
  {
  }

  // ---------------------------------------------------------------------------
  // get_input_filename

  /** What `get_input_filename` returns: the file name, or the script exits with a status. */
  datatype FilenameResult = Found(name: string) | Exit(status: int)

  predicate EndsWith(s: string, suffix: string)
  {
    |suffix| <= |s| && s[|s| - |suffix|..] == suffix
  }

  /** The path ends in ".csv" (the regex's `$` also matches before one final newline). */
  predicate HasStem(path: string)
  {
    EndsWith(path, ".csv") || EndsWith(path, ".csv\n")
  }

  /** The path without its ".csv" ending. */
  function Stem(path: string): string
    requires HasStem(path)
  {
    if EndsWith(path, ".csv") then path[..|path| - 4] else path[..|path| - 5]
  }

  /** Index of the last '/' in `s`, -1 when there is none. */
  function LastSlash(s: string): (r: int)
    ensures -1 <= r < |s|
    ensures r >= 0 ==> s[r] == '/'
    ensures forall k :: r < k < |s| ==> s[k] != '/'
    decreases |s|
  {
    if |s| == 0 then -1
    else if s[|s| - 1] == '/' then |s| - 1
    else LastSlash(s[..|s| - 1])
  }

  /** `name` is the last path component of `s`: a non-empty tail without '/' that
      starts `s` or follows a '/'. */
  predicate IsLastComponent(name: string, s: string)
  {
    && 0 < |name| <= |s|
    && (forall k :: 0 <= k < |name| ==> name[k] != '/')
    && s[|s| - |name|..] == name
    && (|name| == |s| || s[|s| - |name| - 1] == '/')
  }

  /** `get_input_filename`: the first match of `\/?([^\/]+)\.csv$`, or exit status 2. */
  function GetInputFilename(path: string): (r: FilenameResult)
    ensures r.Found? ==> HasStem(path) && IsLastComponent(r.name, Stem(path))
    ensures r.Exit? ==> r.status == 2
    ensures r.Exit? <==> !HasStem(path) || |Stem(path)| == 0 || Stem(path)[|Stem(path)| - 1] == '/'
  {
    if !HasStem(path) then Exit(2)
    else
      var stem := Stem(path);
      var name := stem[LastSlash(stem) + 1..];
      if |name| > 0 then Found(name) else Exit(2)
  }

  /** The file name of a relative path; the extension is matched case-sensitively. */
  lemma GetInputFilenameExamples()
    ensures GetInputFilename("./input/chats.csv") == Found("chats")
    ensures GetInputFilename("chats.csv") == Found("chats")
    ensures GetInputFilename("chats.CSV") == Exit(2)
    ensures GetInputFilename("input/.csv") == Exit(2)
  {
    assert EndsWith("./input/chats.csv", ".csv");
    assert Stem("./input/chats.csv") == "./input/chats";
    assert "./input/chats"[7] == '/';
    assert EndsWith("chats.csv", ".csv");
    assert Stem("chats.csv") == "chats";
    assert LastSlash("chats") == -1;
    assert !EndsWith("chats.CSV", ".csv") && !EndsWith("chats.CSV", ".csv\n");
    assert EndsWith("input/.csv", ".csv");
  }
}
