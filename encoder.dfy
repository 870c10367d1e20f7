/** The encoding that the decoder of `decode_blitzortung_data` undoes, and the
    round trip between the two.

    A frame is a parse of the text into words, each sent as one code point:
    a one-character word below 256 as itself, a longer word as the code
    256 + i of an earlier dictionary entry, where entry i is word i followed
    by the first character of word i + 1. `Encodes` states this relation;
    `DecodeInverts` proves that the decoder recovers the words from any frame
    in that relation, and `Encode` is a greedy LZW encoder whose frames are. */
module Encoder {
  import opened Payload
  import opened Decoder

  /** Code points from here on are UTF-16 surrogates, which are not characters;
      an encoder must stop issuing codes below it. */
  const SurrogateStart: int := 0xD800

  /** Code point `j` of `codes` stands for word `j` of `ws`. A code of 256 or
      more may only name an entry registered before word `j` is read, or the
      one registered while reading it (the entry of word j - 1). */
  ghost predicate RefersTo(ws: seq<string>, codes: string, j: int)
    requires 0 <= j < |codes| && j < |ws|
  {
    var k := codes[j] as int;
    if k < DictBase then ws[j] == [codes[j]]
    else k - DictBase < j && ws[j] == Link(ws, k - DictBase)
  }

  /** `codes` is a frame that encodes the non-empty words `ws`. */
  ghost predicate Encodes(ws: seq<string>, codes: string)
  {
    && |codes| == |ws|
    && (forall j | 0 <= j < |ws| :: ws[j] != [])
    && (forall j | 0 <= j < |ws| :: RefersTo(ws, codes, j))
  }

  lemma EncodesPrefix(ws: seq<string>, codes: string, n: nat)
    requires Encodes(ws, codes) && n <= |ws|
    ensures Encodes(ws[..n], codes[..n])
  {
    var wp, cp := ws[..n], codes[..n];
    forall j | 0 <= j < n
      ensures RefersTo(wp, cp, j)
    {
      assert RefersTo(ws, codes, j);
      var k := codes[j] as int;
      if k >= DictBase {
        assert Link(wp, k - DictBase) == Link(ws, k - DictBase);
      }
    }
  }

  /** A word that is the link of the word before it and itself repeats the
      first character of the word before it. */
  lemma SelfLinkRepeatsFirst(prev: string, w: string)
    requires prev != [] && w == prev + First(w)
    ensures w == prev + First(prev)
  {
    assert w[0] == prev[0];
  }

  /** The last code point of a frame expands to the last word, once the
      decoder has recovered all the words before it. */
  lemma LastWordDecoded(ws: seq<string>, codes: string)
    requires |codes| > 1 && Encodes(ws, codes)
    requires Run(codes[..|codes| - 1]).out == ws[..|codes| - 1]
    ensures EntryFor(Run(codes[..|codes| - 1]), codes[|codes| - 1]) == ws[|codes| - 1]
  {
    var n := |codes|;
    var st := Run(codes[..n - 1]);
    RunWellFormed(codes[..n - 1]);
    assert RefersTo(ws, codes, n - 1);
    EntryResolves(st, ws, codes[n - 1]);
  }

  /** In a well-formed decoder state whose entries are all but the last of
      `ws`, a code point that refers to the last word expands to it. */
  lemma EntryResolves(st: State, ws: seq<string>, u: char)
    requires WellFormed(st) && |ws| == |st.out| + 1 && ws[..|st.out|] == st.out
    requires ws[|ws| - 1] != []
    requires u as int < DictBase ==> ws[|ws| - 1] == [u]
    requires u as int >= DictBase ==>
      u as int - DictBase < |ws| - 1 && ws[|ws| - 1] == Link(ws, u as int - DictBase)
    ensures EntryFor(st, u) == ws[|ws| - 1]
  {
    var m := |st.out|;
    var k := u as int;
    if k >= DictBase {
      var i := k - DictBase;
      assert st.out[i] == ws[i];
      if i < m - 1 {
        assert st.out[i + 1] == ws[i + 1];
        assert Link(st.out, i) == Link(ws, i);
      } else {
        SelfLinkRepeatsFirst(ws[m - 1], ws[m]);
      }
    }
  }

  /** The decoder recovers, entry by entry, the words of every frame that
      encodes them; in particular a code that is not yet in the decoder's
      dictionary can only be the entry of the previous word, and the
      decoder's fallback expands it correctly. */
  lemma {:induction false} DecodeInverts(ws: seq<string>, codes: string)
    requires codes != [] && Encodes(ws, codes)
    ensures Run(codes).out == ws
    ensures DecodedText(codes) == Concat(ws)
  {
    var n := |codes|;
    if n == 1 {
      assert RefersTo(ws, codes, 0);
    } else {
      var wp, cp := ws[..n - 1], codes[..n - 1];
      EncodesPrefix(ws, codes, n - 1);
      DecodeInverts(wp, cp);
      LastWordDecoded(ws, codes);
      assert ws == wp + [ws[n - 1]];
    }
  }

  /** The encoder's state: the dictionary from multi-character words to codes,
      the word being matched, and the words and code points emitted so far. */
  datatype EncState = EncState(table: map<string, int>, pending: string, words: seq<string>, codes: string)

  /** Every code in the table is one the encoder has assigned: at least 256
      and below `next`. */
  ghost predicate CodesBelow(table: map<string, int>, next: int)
  {
    forall w | w in table :: DictBase <= table[w] < next
  }

  /** What the encoder needs to keep going for `room` more characters: a
      pending word that is a single character or has a code, and codes that
      stay below the surrogate range. */
  ghost predicate Ready(st: EncState, room: nat)
  {
    && st.pending != []
    && (|st.pending| >= 2 ==> st.pending in st.table)
    && CodesBelow(st.table, DictBase + |st.words|)
    && DictBase + |st.words| + room <= SurrogateStart
  }

  /** The code point sent for the pending word. */
  function Emit(st: EncState): char
    requires st.pending != []
    requires |st.pending| >= 2 ==> st.pending in st.table && 0 <= st.table[st.pending] < SurrogateStart
  {
    if |st.pending| == 1 then st.pending[0] else st.table[st.pending] as char
  }

  /** The encoder's state after reading character `ch`. */
  function Next(st: EncState, ch: char): EncState
    requires Ready(st, 1)
  {
    var w := st.pending + [ch];
    if w in st.table then st.(pending := w)
    else EncState(st.table[w := DictBase + |st.words|], [ch], st.words + [st.pending], st.codes + [Emit(st)])
  }

  /** Greedy LZW over the remaining characters `rest`: extend the pending word
      while the extension has a code; otherwise send the pending word, give
      the extension the next code and start again from the new character. */
  function EncodeFrom(st: EncState, rest: string): (r: EncState)
    requires Ready(st, |rest|)
    ensures Ready(r, 0)
    decreases |rest|
  {
    if rest == [] then st else EncodeFrom(Next(st, rest[0]), rest[1..])
  }

  /** The encoder's starting state for the text `t`. */
  function Start(t: string): EncState
    requires t != []
  {
    EncState(map[], [t[0]], [], [])
  }

  /** The frame a greedy LZW encoder sends for the non-empty text `t`. */
  function Encode(t: string): string
    requires t != [] && DictBase + |t| <= SurrogateStart
  {
    var st := EncodeFrom(Start(t), t[1..]);
    st.codes + [Emit(st)]
  }

  /** The words sent so far, followed by the pending one. */
  function Words(st: EncState): seq<string>
  {
    st.words + [st.pending]
  }

  ghost predicate AllNonEmpty(ws: seq<string>)
  {
    forall j | 0 <= j < |ws| :: ws[j] != []
  }

  /** Every one of `codes` stands for the word at its position in `ws`. */
  ghost predicate CodesRefer(ws: seq<string>, codes: string)
    requires |codes| <= |ws|
  {
    forall j | 0 <= j < |codes| :: RefersTo(ws, codes, j)
  }

  /** Every dictionary entry is the link of two consecutive words, under a
      code below 256 + n. */
  ghost predicate TableLinks(table: map<string, int>, ws: seq<string>, n: nat)
    requires n < |ws|
  {
    forall w | w in table :: 0 <= table[w] - DictBase < n && w == Link(ws, table[w] - DictBase)
  }

  /** What the encoder's state means: the sent code points encode the sent
      words, and every dictionary entry is the link between two consecutive
      words (the last of them possibly the pending one). */
  ghost predicate Sound(st: EncState)
  {
    && |st.codes| == |st.words|
    && AllNonEmpty(Words(st))
    && (|st.pending| == 1 ==> st.pending[0] as int < DictBase)
    && CodesRefer(Words(st), st.codes)
    && TableLinks(st.table, Words(st), |st.words|)
  }

  /** Whether a code refers correctly depends only on the words up to its own
      position. */
  lemma CodesReferStable(ws: seq<string>, ws': seq<string>, codes: string)
    requires |codes| <= |ws| && |codes| <= |ws'| && ws[..|codes|] == ws'[..|codes|]
    requires CodesRefer(ws, codes)
    ensures CodesRefer(ws', codes)
  {
    forall j | 0 <= j < |codes|
      ensures RefersTo(ws', codes, j)
    {
      assert RefersTo(ws, codes, j);
      assert ws[j] == ws[..|codes|][j];
      var k := codes[j] as int;
      if k >= DictBase {
        var i := k - DictBase;
        assert ws[i] == ws[..|codes|][i] && ws[i + 1] == ws[..|codes|][i + 1];
        assert Link(ws', i) == Link(ws, i);
      }
    }
  }

  /** Sending the pending word: its code refers to it. */
  lemma SendRefers(st: EncState, ch: char)
    requires Ready(st, 1) && Sound(st)
    ensures CodesRefer(Words(st) + [[ch]], st.codes + [Emit(st)])
  {
    var ws, ws' := Words(st), Words(st) + [[ch]];
    var codes := st.codes + [Emit(st)];
    assert ws'[..|st.codes|] == ws[..|st.codes|];
    CodesReferStable(ws, ws', st.codes);
    forall j | 0 <= j < |codes|
      ensures RefersTo(ws', codes, j)
    {
      if j < |st.codes| {
        assert RefersTo(ws', st.codes, j);
      } else if |st.pending| >= 2 {
        var i := st.table[st.pending] - DictBase;
        assert st.pending == Link(ws, i);
        assert Link(ws', i) == Link(ws, i);
      }
    }
  }

  /** Sending the pending word: the new entry is the link of the pending
      word and the character just read, and the older entries stay links. */
  lemma SendLinks(st: EncState, ch: char)
    requires Ready(st, 1) && Sound(st)
    requires st.pending + [ch] !in st.table
    ensures TableLinks(st.table[st.pending + [ch] := DictBase + |st.words|], Words(st) + [[ch]], |st.words| + 1)
  {
    assert Words(st)[|Words(st)| - 1] == st.pending;
    TableLinksGrow(st.table, Words(st), ch);
  }

  /** Registering the last word followed by `ch` under the next code keeps
      every entry the link of two consecutive words once `[ch]` is a word. */
  lemma TableLinksGrow(table: map<string, int>, ws: seq<string>, ch: char)
    requires |ws| >= 1 && TableLinks(table, ws, |ws| - 1)
    ensures TableLinks(table[ws[|ws| - 1] + [ch] := DictBase + |ws| - 1], ws + [[ch]], |ws|)
  {
    var n := |ws|;
    var table' := table[ws[n - 1] + [ch] := DictBase + n - 1];
    var ws' := ws + [[ch]];
    forall v | v in table'
      ensures 0 <= table'[v] - DictBase < n && v == Link(ws', table'[v] - DictBase)
    {
      if v != ws[n - 1] + [ch] {
        var i := table[v] - DictBase;
        assert ws'[i] == ws[i] && ws'[i + 1] == ws[i + 1];
        assert Link(ws', i) == Link(ws, i);
      } else {
        assert ws'[n - 1] == ws[n - 1] && ws'[n] == [ch];
      }
    }
  }

  /** Sending the pending word keeps the state sound. */
  lemma SendSound(st: EncState, ch: char)
    requires Ready(st, 1) && Sound(st) && ch as int < DictBase
    requires st.pending + [ch] !in st.table
    ensures Sound(EncState(st.table[st.pending + [ch] := DictBase + |st.words|], [ch],
                           st.words + [st.pending], st.codes + [Emit(st)]))
  {
    var st' := EncState(st.table[st.pending + [ch] := DictBase + |st.words|], [ch],
                        st.words + [st.pending], st.codes + [Emit(st)]);
    assert Words(st') == Words(st) + [[ch]];
    SendRefers(st, ch);
    SendLinks(st, ch);
  }

  /** Extending the pending word by a character keeps the state sound: the
      pending word keeps its first character, so every entry stays a link. */
  lemma ExtendSound(st: EncState, ch: char)
    requires Sound(st)
    ensures Sound(st.(pending := st.pending + [ch]))
  {
    var st' := st.(pending := st.pending + [ch]);
    var ws, ws' := Words(st), Words(st');
    var n := |st.words|;
    assert ws[n] == st.pending != [];
    assert First(ws'[n]) == First(ws[n]);
    assert ws'[..n] == ws[..n];
    forall j | 0 <= j < |ws'|
      ensures ws'[j] != []
    {
      if j < n {
        assert ws'[j] == ws[j];
      }
    }
    forall i | 0 <= i < n
      ensures Link(ws', i) == Link(ws, i)
    {
      assert ws'[i] == ws[i];
    }
    CodesReferStable(ws, ws', st.codes);
  }

  /** Reading one character keeps the state ready. */
  lemma NextReady(st: EncState, ch: char, room: nat)
    requires Ready(st, room + 1)
    ensures Ready(Next(st, ch), room)
  {
  }

  /** Reading one character keeps the state sound. */
  lemma NextSound(st: EncState, ch: char)
    requires Ready(st, 1) && Sound(st) && ch as int < DictBase
    ensures Sound(Next(st, ch))
  {
    if st.pending + [ch] in st.table {
      ExtendSound(st, ch);
    } else {
      SendSound(st, ch);
    }
  }

  /** Reading one character extends the text that the words spell by that
      character. */
  lemma NextSpells(st: EncState, ch: char)
    requires Ready(st, 1)
    ensures Concat(Words(Next(st, ch))) == Concat(Words(st)) + [ch]
  {
    var w := st.pending + [ch];
    ConcatAppend(st.words, st.pending);
    if w in st.table {
      ConcatAppend(st.words, w);
    } else {
      ConcatAppend(Words(st), [ch]);
    }
  }

  ghost predicate Narrow(s: string)
  {
    forall j | 0 <= j < |s| :: s[j] as int < DictBase
  }

  /** Running the encoder keeps its state sound. */
  lemma {:induction false} EncodeFromSound(st: EncState, rest: string)
    requires Ready(st, |rest|) && Sound(st) && Narrow(rest)
    ensures Sound(EncodeFrom(st, rest))
    decreases |rest|
  {
    if rest != [] {
      var ch, tail := rest[0], rest[1..];
      assert rest == [ch] + tail;
      assert Narrow(tail) by {
        forall j | 0 <= j < |tail| ensures tail[j] as int < DictBase {
          assert tail[j] == rest[j + 1];
        }
      }
      NextReady(st, ch, |tail|);
      NextSound(st, ch);
      EncodeFromSound(Next(st, ch), tail);
    }
  }

  /** Running the encoder appends exactly the consumed characters to the text
      its words spell. */
  lemma {:induction false} EncodeFromSpells(st: EncState, rest: string)
    requires Ready(st, |rest|)
    ensures Concat(Words(EncodeFrom(st, rest))) == Concat(Words(st)) + rest
    decreases |rest|
  {
    if rest != [] {
      var ch, tail := rest[0], rest[1..];
      assert rest == [ch] + tail;
      NextReady(st, ch, |tail|);
      NextSpells(st, ch);
      var st' := Next(st, ch);
      EncodeFromSpells(st', tail);
      assert EncodeFrom(st, rest) == EncodeFrom(st', tail);
      AppendSplit(Concat(Words(st)), ch, tail, rest);
    } else {
      assert rest + [] == rest;
    }
  }

  lemma AppendSplit(text: string, ch: char, tail: string, rest: string)
    requires rest == [ch] + tail
    ensures (text + [ch]) + tail == text + rest
  {
  }

  /** Sending the last pending word completes a frame that encodes the words. */
  lemma FinishEncodes(st: EncState)
    requires Ready(st, 0) && Sound(st)
    ensures Encodes(Words(st), st.codes + [Emit(st)])
  {
    var ws, codes := Words(st), st.codes + [Emit(st)];
    forall j | 0 <= j < |ws|
      ensures RefersTo(ws, codes, j)
    {
      if j < |st.codes| {
        assert RefersTo(ws, st.codes, j);
      } else if |st.pending| >= 2 {
        assert st.table[st.pending] - DictBase < |st.words|;
      }
    }
  }

  /** The words that the greedy encoder splits the text `t` into. */
  function EncodedWords(t: string): seq<string>
    requires t != [] && DictBase + |t| <= SurrogateStart
  {
    Words(EncodeFrom(Start(t), t[1..]))
  }

  lemma StartSound(t: string)
    requires t != [] && DictBase + |t| <= SurrogateStart
    requires forall j | 0 <= j < |t| :: t[j] as int < DictBase
    ensures Ready(Start(t), |t| - 1) && Sound(Start(t)) && Narrow(t[1..])
    ensures Concat(Words(Start(t))) + t[1..] == t
  {
    assert Narrow(t[1..]) by {
      forall j | 0 <= j < |t| - 1 ensures t[1..][j] as int < DictBase {
        assert t[1..][j] == t[j + 1];
      }
    }
    assert Words(Start(t)) == [[t[0]]];
    assert Concat([[t[0]]]) == Concat([]) + [t[0]];
    assert [t[0]] + t[1..] == t;
  }

  /** The encoder's frame encodes its words, and the words spell the text. */
  lemma EncodeSound(t: string)
    requires t != [] && DictBase + |t| <= SurrogateStart
    requires forall j | 0 <= j < |t| :: t[j] as int < DictBase
    ensures Encodes(EncodedWords(t), Encode(t))
    ensures Concat(EncodedWords(t)) == t
  {
    StartSound(t);
    var st := EncodeFrom(Start(t), t[1..]);
    EncodeFromSound(Start(t), t[1..]);
    EncodeFromSpells(Start(t), t[1..]);
    FinishEncodes(st);
    assert Encode(t) == st.codes + [Emit(st)];
    assert EncodedWords(t) == Words(st);
  }

  /** Round trip: for a text of characters below 256 that is short enough for
      its codes to stay below the surrogate range, the decoder expands the
      encoder's frame back to the text, so its JSON parse is that of the text
      itself; and the frame is never longer than the text. */
  lemma RoundTrip(t: string, loads: string -> Option<Json>)
    requires t != [] && DictBase + |t| <= SurrogateStart
    requires forall j | 0 <= j < |t| :: t[j] as int < DictBase
    ensures Encode(t) != [] && DecodedText(Encode(t)) == t
    ensures Decode(loads, Encode(t)) == loads(t)
    ensures |Encode(t)| <= |t|
  {
    EncodeSound(t);
    DecodeInverts(EncodedWords(t), Encode(t));
    ConcatOfNonEmpty(EncodedWords(t));
  }

  /** Why `RoundTrip` needs characters below 256: after the first unit the
      decoder reads any character of 256 or more as a code, so a text with
      such a character is not given back. The greedy encoder sends `a€` as
      itself, and the decoder reads `€` as the not yet defined next code. */
  lemma WideCharacterMisread()
    ensures Encode("a\U{20AC}") == "a\U{20AC}"
    ensures DecodedText("a\U{20AC}") == "aaa"
  {
    var t := "a\U{20AC}";
    var st := Next(Start(t), t[1]);
    assert EncodeFrom(Start(t), t[1..]) == EncodeFrom(st, []) == st;
    assert Run(t) == Step(Init('a'), t[1]);
    assert Concat([[t[0]], "aa"]) == Concat([[t[0]]]) + "aa";
  }
}
