/**
 * The keyword recogniser of the structure parser (ILFMS): a finite-state
 * machine fed one character at a time that flags the character on which
 * `.class`, `.method`, `.property`, `.field` or `.event` is complete.
 */
module KeywordMachine {
  import opened NetString

  datatype StateId = Start | DotToken | Field | Event | Method | Property | Class

  /** The machine's state record: which state, how far into the keyword, and the final flag. */
  datatype State = State(id: StateId, index: int, isFinal: bool)

  predicate IsKeyword(id: StateId)
  {
    id != Start && id != DotToken
  }

  /** The keyword spelled out in each keyword state (after its dot). */
  function Token(id: StateId): (t: string)
    requires IsKeyword(id)
    ensures |t| >= 5
  {
    match id
    case Class => "class"
    case Method => "method"
    case Property => "property"
    case Field => "field"
    case Event => "event"
  }

  /** The one-character table consulted after a dot. */
  function DotTransition(c: char): StateId
  {
    if c == 'c' then Class
    else if c == 'm' then Method
    else if c == 'p' then Property
    else if c == 'f' then Field
    else if c == 'e' then Event
    else Start
  }

  /** The machine's own invariant: the progress index stays inside the keyword, and the
    * final flag is raised exactly on the keyword's last letter. */
  predicate WellFormed(s: State)
  {
    && (IsKeyword(s.id) ==> 0 <= s.index < |Token(s.id)|)
    && (s.isFinal <==> IsKeyword(s.id) && s.index == |Token(s.id)| - 1)
  }

  /** A fresh machine. */
  const Initial := State(Start, 0, false)

  /**
   * One step of GoToNextState.  Stepping a machine whose final flag is raised
   * would read past the keyword's end (an IndexOutOfRange in the original), so
   * a final state must be restarted first.
   */
  function Next(s: State, c: char): (r: State)
    requires WellFormed(s) && !s.isFinal
    ensures WellFormed(r)
    ensures IsKeyword(r.id) && r.index > 0 ==> r.id == s.id && r.index == s.index + 1
  {
    if s.id == Start then
      if c == '.' then s.(id := DotToken) else s
    else if s.id == DotToken then
      s.(id := DotTransition(c), index := 0)
    else if Token(s.id)[s.index + 1] == c then
      s.(index := s.index + 1, isFinal := s.index + 1 == |Token(s.id)| - 1)
    else
      s.(id := Start)
  }

  /** Restart: back to Start with the final flag cleared. */
  function Restarted(s: State): (r: State)
    requires WellFormed(s)
    ensures WellFormed(r) && r.id == Start && !r.isFinal
  {
    s.(id := Start, isFinal := false)
  }

  /** In Start, only '.' moves the machine, to DotToken. */
  lemma StartStep(s: State, c: char)
    requires WellFormed(s) && !s.isFinal && s.id == Start
    ensures Next(s, c).id == (if c == '.' then DotToken else Start)
    ensures !Next(s, c).isFinal
  {
  }

  /** After a dot, the five letters select a keyword with progress 0; anything else returns to Start. */
  lemma DotStep(s: State, c: char)
    requires WellFormed(s) && !s.isFinal && s.id == DotToken
    ensures var r := Next(s, c);
            && (c in "cmpfe" <==> IsKeyword(r.id))
            && (IsKeyword(r.id) ==> r.index == 0 && Token(r.id)[0] == c)
            && (!IsKeyword(r.id) ==> r.id == Start)
            && !r.isFinal
  {
  }

  /** In a keyword state, the expected letter advances progress by one; any other character,
    * even a dot, goes back to Start. */
  lemma KeywordStep(s: State, c: char)
    requires WellFormed(s) && !s.isFinal && IsKeyword(s.id)
    ensures var r := Next(s, c);
            if c == Token(s.id)[s.index + 1] then
              r.id == s.id && r.index == s.index + 1 && (r.isFinal <==> r.index == |Token(s.id)| - 1)
            else
              r.id == Start && !r.isFinal
  {
  }

  /** What the state says about the text consumed so far: in DotToken the last character was
    * a dot, in a keyword state the text ends with the dot and the keyword letters matched. */
  predicate Consistent(s: State, seen: string)
    requires WellFormed(s)
  {
    && (s.id == DotToken ==> EndsWith(seen, "."))
    && (IsKeyword(s.id) ==> EndsWith(seen, "." + Token(s.id)[..s.index + 1]))
  }

  lemma {:induction false} NextConsistent(s: State, seen: string, c: char)
    requires WellFormed(s) && !s.isFinal && Consistent(s, seen)
    ensures Consistent(Next(s, c), seen + [c])
  {
    var r := Next(s, c);
    var t := seen + [c];
    if s.id == DotToken && IsKeyword(r.id) {
      assert "." + Token(r.id)[..1] == [seen[|seen| - 1], c];
      assert t[|t| - 2..] == [seen[|seen| - 1], c];
    } else if IsKeyword(s.id) && IsKeyword(r.id) {
      var w := "." + Token(s.id)[..s.index + 1];
      var w' := "." + Token(s.id)[..s.index + 2];
      assert w' == w + [c];
      assert t[|t| - |w'|..] == seen[|seen| - |w|..] + [c];
    }
  }

  /** Soundness: when the final flag goes up, the text read so far ends with the dot and the
    * whole keyword of the state. */
  lemma FinalMeansKeyword(s: State, seen: string)
    requires WellFormed(s) && Consistent(s, seen) && s.isFinal
    ensures IsKeyword(s.id) && EndsWith(seen, "." + Token(s.id))
  {
    assert Token(s.id)[..s.index + 1] == Token(s.id);
  }

  /** Feeding characters one by one; once the final flag is up the machine waits for a restart. */
  function Feed(s: State, w: string): (r: State)
    requires WellFormed(s)
    ensures WellFormed(r)
    decreases |w|
  {
    if w == [] || s.isFinal then s else Feed(Next(s, w[0]), w[1..])
  }

  /** Feeding one more character is one more step, unless the flag is already up. */
  lemma {:induction false} FeedSnoc(s: State, w: string, c: char)
    requires WellFormed(s)
    ensures Feed(s, w + [c]) == (var f := Feed(s, w); if f.isFinal then f else Next(f, c))
    decreases |w|
  {
    if w == [] {
      assert ([] + [c])[1..] == [];
    } else if !s.isFinal {
      assert (w + [c])[1..] == w[1..] + [c];
      FeedSnoc(Next(s, w[0]), w[1..], c);
    }
  }

  /** After the dot and n + 1 letters of a keyword, the machine sits at progress n. */
  lemma {:induction false} FeedKeywordPrefix(s: State, k: StateId, n: nat)
    requires WellFormed(s) && s.id == Start && !s.isFinal && IsKeyword(k)
    requires n < |Token(k)|
    ensures Feed(s, ("." + Token(k))[..n + 2]) == State(k, n, n == |Token(k)| - 1)
  {
    var w := "." + Token(k);
    if n == 0 {
      assert w[..2] == ['.'] + [Token(k)[0]];
      FeedSnoc(s, ['.'], Token(k)[0]);
      assert ['.'][1..] == [];
    } else {
      FeedKeywordPrefix(s, k, n - 1);
      var c := Token(k)[n];
      assert w[..n + 2] == w[..n + 1] + [c];
      FeedSnoc(s, w[..n + 1], c);
      KeywordStep(State(k, n - 1, false), c);
    }
  }

  /** Completeness: from Start, feeding a dot and a keyword raises the final flag on the
    * keyword's last letter, in that keyword's state, and not before. */
  lemma RecognisesKeyword(s: State, k: StateId)
    requires WellFormed(s) && s.id == Start && !s.isFinal && IsKeyword(k)
    ensures Feed(s, "." + Token(k)) == State(k, |Token(k)| - 1, true)
    ensures forall m :: 0 <= m < |"." + Token(k)| ==> !Feed(s, ("." + Token(k))[..m]).isFinal
  {
    var w := "." + Token(k);
    FeedKeywordPrefix(s, k, |Token(k)| - 1);
    assert w[..|Token(k)| + 1] == w;
    forall m | 0 <= m < |w|
      ensures !Feed(s, w[..m]).isFinal
    {
      if m == 1 {
        assert w[..1] == ['.'];
        assert ['.'][1..] == [];
      } else if m >= 2 {
        FeedKeywordPrefix(s, k, m - 2);
      }
    }
  }

  /** A dot right before ".class" hides it: the second dot sends the machine back to Start,
    * so "..class" raises no flag, while the same text from its second dot on does. */
  lemma DoubleDotHidesClass()
    ensures Feed(Initial, "..class") == Initial
    ensures Feed(Initial, ".class").isFinal
  {
    RecognisesKeyword(Initial, Class);
  }

  /** The recogniser as the parser owns it: the state record updated in place. */
  class Machine {
    var stateId: StateId
    var stateValueIndex: int
    var isFinal: bool

    function Current(): State
      reads this
    {
      State(stateId, stateValueIndex, isFinal)
    }

    predicate Valid()
      reads this
    {
      WellFormed(Current())
    }

    constructor ()
      ensures Current() == Initial && Valid()
    {
      stateId := Start;
      stateValueIndex := 0;
      isFinal := false;
    }

    method GoToNextState(value: char)
      requires Valid() && !isFinal
      modifies this
      ensures Current() == Next(old(Current()), value) && Valid()
    {
      if stateId == Start {
        if value == '.' {
          stateId := DotToken;
        }
      } else if stateId == DotToken {
        stateId := DotTransition(value);
        stateValueIndex := 0;
      } else if Token(stateId)[stateValueIndex + 1] == value {
        stateValueIndex := stateValueIndex + 1;
        isFinal := stateValueIndex == |Token(stateId)| - 1;
      } else {
        stateId := Start;
      }
    }

    method Restart()
      requires Valid()
      modifies this
      ensures Current() == Restarted(old(Current())) && Valid()
    {
      stateId := Start;
      isFinal := false;
    }
  }
}
