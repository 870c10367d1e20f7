/** The frame decoder of `BlitzortungClient.decode_blitzortung_data`: an
    LZW-style expansion whose dictionary is built during the pass itself.

    A frame is a sequence of code points. A code point below 256 is a literal
    character; one of 256 or more refers to a dictionary entry. Every input unit
    after the first adds one entry, under the next free code from 256 upwards:
    the previous output entry followed by the first character of the current
    one. A code that is not (yet) defined expands to the previous entry
    followed by that entry's first character. */
module Decoder {
  import opened Payload

  /** The first dictionary code; code points below it are literals. */
  const DictBase: int := 256

  /** The decoder's loop variables: the dictionary `dict`, the previous entry
      `prev`, the first character of the previous entry `head` (a string of
      length 0 or 1), the next free code `code`, and the entries emitted so far
      `out`. */
  datatype State = State(dict: map<int, string>, prev: string, head: string, code: int, out: seq<string>)

  /** The state after the first input unit (`c`, `f`, `g`, `h` and `o` set up
      from `d[0]`): it already satisfies the loop invariant. */
  function Init(first: char): (st: State)
    ensures WellFormed(st) && st.out == [[first]]
  {
    State(map[], [first], [first], DictBase, [[first]])
  }

  /** The entry that code point `u` expands to in state `st`: a literal below
      256 is itself; in a well-formed state a defined code is the link of two
      earlier consecutive entries, and an undefined one is the previous entry
      followed by its own first character. */
  function EntryFor(st: State, u: char): (a: string)
    ensures u as int < DictBase ==> a == [u]
    ensures WellFormed(st) && u as int >= DictBase ==>
      a == if u as int < st.code then Link(st.out, u as int - DictBase) else st.prev + First(st.prev)
    ensures WellFormed(st) ==> a != []
  {
    var a := u as int;
    if DictBase > a then [u]
    else if a in st.dict then st.dict[a]
    else st.prev + st.head
  }

  /** `a[0] if a else ""`: the prefix of `a` of length one, or empty. */
  function First(a: string): (r: string)
    ensures r <= a
    ensures |r| == if a == [] then 0 else 1
  {
    if a != [] then a[..1] else []
  }

  /** One iteration of the decoding loop: it appends exactly one entry to the
      output and keeps the loop invariant. */
  function Step(st: State, u: char): (r: State)
    ensures r.out == st.out + [EntryFor(st, u)]
    ensures WellFormed(st) ==> WellFormed(r)
  {
    var a := EntryFor(st, u);
    var c := First(a);
    var r := State(st.dict[st.code := st.prev + c], a, c, st.code + 1, st.out + [a]);
    assert WellFormed(st) ==> WellFormed(r) by {
      if WellFormed(st) {
        ExtendWellFormed(st, a);
      }
    }
    r
  }

  /** The state after all of the non-empty input `d`: one entry per input
      unit, starting with the first input unit, and the next free code just
      past one code per input unit after the first. */
  function Run(d: string): (st: State)
    requires d != []
    ensures |st.out| == |d|
    ensures st.out[0] == [d[0]]
    ensures st.code == DictBase + |d| - 1
    decreases |d|
  {
    if |d| == 1 then Init(d[0]) else Step(Run(d[..|d| - 1]), d[|d| - 1])
  }

  /** The decoder's state after any non-empty input satisfies the loop
      invariant. */
  lemma {:induction false} RunWellFormed(d: string)
    requires d != []
    ensures WellFormed(Run(d))
  {
    if |d| > 1 {
      RunWellFormed(d[..|d| - 1]);
    }
  }

  /** `''.join(parts)`: the join of no parts is empty and the join of one
      part is that part; `ConcatAppend` gives the join of a longer list. */
  function Concat(parts: seq<string>): (s: string)
    ensures parts == [] ==> s == []
    ensures |parts| == 1 ==> s == parts[0]
  {
    if parts == [] then [] else Concat(parts[..|parts| - 1]) + parts[|parts| - 1]
  }

  /** The text that the non-empty input `d` decodes to. */
  function DecodedText(d: string): string
    requires d != []
  {
    Concat(Run(d).out)
  }

  /** The whole decoder: empty input fails (there is no first element), any
      other input is expanded and handed to the JSON parser `loads`, whose
      failure is the decoder's failure. Input of literals only is handed to
      `loads` unchanged. */
  function Decode(loads: string -> Option<Json>, d: string): (r: Option<Json>)
    ensures d == [] ==> r == None
    ensures d != [] && (forall j | 0 <= j < |d| :: d[j] as int < DictBase) ==> r == loads(d)
  {
    if d == [] then None
    else
      assert (forall j | 0 <= j < |d| :: d[j] as int < DictBase) ==> DecodedText(d) == d by {
        if forall j | 0 <= j < |d| :: d[j] as int < DictBase {
          LiteralsPassThrough(d);
        }
      }
      loads(DecodedText(d))
  }

  /** The loop invariant of the decoder. */
  ghost predicate WellFormed(st: State)
  {
    && |st.out| >= 1
    && st.prev == st.out[|st.out| - 1]
    && st.prev != []
    && st.head == First(st.prev)
    && st.code == DictBase + |st.out| - 1
    && (forall j | 0 <= j < |st.out| :: st.out[j] != [])
    && (forall k :: k in st.dict <==> DictBase <= k < st.code)
    && (forall k | k in st.dict :: st.dict[k] == Link(st.out, k - DictBase))
  }

  /** The entry that the j-th input unit after the first registers: the entry
      before it followed by the first character of its own entry. */
  function Link(out: seq<string>, j: int): string
    requires 0 <= j < |out| - 1
  {
    out[j] + First(out[j + 1])
  }

  /** Appending a non-empty entry `a` and registering the link of the
      previous entry and `a` under the next free code keeps the invariant. */
  lemma ExtendWellFormed(st: State, a: string)
    requires WellFormed(st) && a != []
    ensures WellFormed(State(st.dict[st.code := st.prev + First(a)], a, First(a), st.code + 1, st.out + [a]))
  {
    var st' := State(st.dict[st.code := st.prev + First(a)], a, First(a), st.code + 1, st.out + [a]);
    forall k | k in st'.dict
      ensures st'.dict[k] == Link(st'.out, k - DictBase)
    {
      if k < st.code {
        assert Link(st'.out, k - DictBase) == Link(st.out, k - DictBase);
      }
    }
  }

  lemma {:induction false} ConcatAppend(parts: seq<string>, s: string)
    ensures Concat(parts + [s]) == Concat(parts) + s
  {
    assert (parts + [s])[..|parts|] == parts;
  }

  /** Input made only of code points below 256 decodes to itself. */
  lemma {:induction false} LiteralsPassThrough(d: string)
    requires d != []
    requires forall j | 0 <= j < |d| :: d[j] as int < DictBase
    ensures DecodedText(d) == d
  {
    if |d| == 1 {
      assert Run(d).out == [[d[0]]];
      assert Concat([[d[0]]]) == Concat([]) + [d[0]];
    } else {
      var p := d[..|d| - 1];
      LiteralsPassThrough(p);
      ConcatAppend(Run(p).out, [d[|d| - 1]]);
      assert p + [d[|d| - 1]] == d;
    }
  }

  /** After `d`, the dictionary holds exactly the codes 256 .. 256 + |d| - 2,
      one per input unit after the first; the entry under code 256 + j is
      entry j followed by the first character of entry j + 1, so it has at
      least two characters. */
  lemma DictionaryShape(d: string)
    requires d != []
    ensures |Run(d).out| == |d| && forall j | 0 <= j < |d| :: Run(d).out[j] != []
    ensures forall k :: k in Run(d).dict <==> DictBase <= k <= DictBase + |d| - 2
    ensures forall k | k in Run(d).dict ::
      Run(d).dict[k] == Run(d).out[k - DictBase] + Run(d).out[k - DictBase + 1][..1]
    ensures forall k | k in Run(d).dict :: |Run(d).dict[k]| >= 2
  {
    RunWellFormed(d);
    var st := Run(d);
    forall k | k in st.dict
      ensures st.dict[k] == st.out[k - DictBase] + st.out[k - DictBase + 1][..1]
      ensures |st.dict[k]| >= 2
    {
      assert st.dict[k] == Link(st.out, k - DictBase);
      assert st.out[k - DictBase] != [] && st.out[k - DictBase + 1] != [];
    }
  }

  /** Processing more input never changes what is already decoded: the state
      after a prefix of `d` has a prefix of the entries and a sub-map of the
      dictionary (codes are never overwritten). */
  lemma {:induction false} NeverOverwritten(d: string, i: nat)
    requires 0 < i <= |d|
    ensures |Run(d).out| == |d|
    ensures Run(d[..i]).out == Run(d).out[..i]
    ensures forall k | k in Run(d[..i]).dict :: k in Run(d).dict && Run(d).dict[k] == Run(d[..i]).dict[k]
    decreases |d| - i
  {
    if i < |d| {
      var p := d[..|d| - 1];
      assert p[..i] == d[..i];
      NeverOverwritten(p, i);
      RunWellFormed(p);
      StepKeeps(Run(p), d[|d| - 1]);
    } else {
      assert d[..i] == d;
    }
  }

  /** One iteration keeps the entries and the dictionary it starts from. */
  lemma StepKeeps(st: State, u: char)
    requires WellFormed(st)
    ensures Step(st, u).out[..|st.out|] == st.out
    ensures forall k | k in st.dict :: k in Step(st, u).dict && Step(st, u).dict[k] == st.dict[k]
  {
    assert st.code !in st.dict;
  }

  /** At the head of every iteration the head character is the first character
      of the previous entry, so a code of 256 or more that is not yet defined
      expands to the previous entry followed by its own first character. A
      code is undefined exactly when it is at least the next free code. */
  lemma UndefinedCodeRepeatsPrevious(d: string, u: char)
    requires d != []
    requires u as int >= DictBase
    ensures Run(d).prev != []
    ensures Run(d).head == [Run(d).prev[0]]
    ensures (u as int !in Run(d).dict) <==> u as int >= DictBase + |d| - 1
    ensures u as int !in Run(d).dict ==>
      Step(Run(d), u).prev == Run(d).prev + [Run(d).prev[0]]
  {
    RunWellFormed(d);
    UndefinedInState(Run(d), u);
  }

  lemma UndefinedInState(st: State, u: char)
    requires WellFormed(st) && u as int >= DictBase
    ensures st.head == [st.prev[0]]
    ensures (u as int !in st.dict) <==> u as int >= st.code
    ensures u as int !in st.dict ==> Step(st, u).prev == st.prev + [st.prev[0]]
  {
  }

  lemma {:induction false} ConcatOfNonEmpty(parts: seq<string>)
    requires forall j | 0 <= j < |parts| :: parts[j] != []
    ensures |Concat(parts)| >= |parts|
    ensures parts != [] ==> |Concat(parts)| >= |parts[0]| && Concat(parts)[..|parts[0]|] == parts[0]
  {
    if parts != [] {
      var p := parts[..|parts| - 1];
      ConcatOfNonEmpty(p);
      if p != [] {
        assert p[0] == parts[0];
        assert Concat(parts) == Concat(p) + parts[|parts| - 1];
        assert Concat(parts)[..|parts[0]|] == Concat(p)[..|parts[0]|];
      }
    }
  }

  /** The decoded text is at least as long as the input and starts with the
      input's first character. */
  lemma DecodedCoversInput(d: string)
    requires d != []
    ensures |DecodedText(d)| >= |d|
    ensures DecodedText(d)[0] == d[0]
  {
    RunWellFormed(d);
    ConcatOfNonEmpty(Run(d).out);
    assert DecodedText(d)[..1] == [d[0]];
  }

  /** `decode_blitzortung_data`: the loop over the input with the dictionary
      `e`, the previous entry `f`, its first character `c`, the next free code
      `o` and the output list `g`. Empty input raises `IndexError` at `d[0]`,
      which the catch-all handler turns into `None`. */
  method DecodeBlitzortungData(loads: string -> Option<Json>, data: string) returns (r: Option<Json>)
    ensures r == Decode(loads, data)
    ensures data == [] ==> r == None
  {
    if data == [] {
      return None;
    }
    var e: map<int, string> := map[];
    var c: string := [data[0]];
    var f := c;
    var g: seq<string> := [c];
    var h := DictBase;
    var o := h;
    for i := 1 to |data|
      invariant State(e, f, c, o, g) == Run(data[..i])
    {
      assert data[..i + 1][..i] == data[..i];
      var a := data[i] as int;
      var entry := if h > a then [data[i]] else if a in e then e[a] else f + c;
      g := g + [entry];
      c := if entry != [] then entry[..1] else [];
      e := e[o := f + c];
      o := o + 1;
      f := entry;
    }
    assert data[..|data|] == data;
    r := loads(Concat(g));
  }
}
