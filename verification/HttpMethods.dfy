/** Request methods and the byte-driven recogniser for their names. */
module HttpMethods {

  datatype Method =
    | Delete | Get | Head | Post | Put
    | Connect | Options | Trace
    | Patch | Purge
    | Copy | Lock | MkCol | Move | Propfind | Proppatch | Search | Unlock | Bind | Rebind | Unbind | Acl
    | Report | MkActivity | Checkout | Merge
    | MSearch | Notify | Subscribe | Unsubscribe
    | MkCalendar
    | Link | Unlink
    | Source

  function Name(m: Method): string {
    match m
    case Delete => "DELETE"
    case Get => "GET"
    case Head => "HEAD"
    case Post => "POST"
    case Put => "PUT"
    case Connect => "CONNECT"
    case Options => "OPTIONS"
    case Trace => "TRACE"
    case Patch => "PATCH"
    case Purge => "PURGE"
    case Copy => "COPY"
    case Lock => "LOCK"
    case MkCol => "MKCOL"
    case Move => "MOVE"
    case Propfind => "PROPFIND"
    case Proppatch => "PROPPATCH"
    case Search => "SEARCH"
    case Unlock => "UNLOCK"
    case Bind => "BIND"
    case Rebind => "REBIND"
    case Unbind => "UNBIND"
    case Acl => "ACL"
    case Report => "REPORT"
    case MkActivity => "MKACTIVITY"
    case Checkout => "CHECKOUT"
    case Merge => "MERGE"
    case MSearch => "M-SEARCH"
    case Notify => "NOTIFY"
    case Subscribe => "SUBSCRIBE"
    case Unsubscribe => "UNSUBSCRIBE"
    case MkCalendar => "MKCALENDAR"
    case Link => "LINK"
    case Unlink => "UNLINK"
    case Source => "SOURCE"
  }

  datatype Guess = Guessed(verb: Method) | NoMethod

  /** First guess, from the first letter alone. */
  function FirstGuess(ch: char): Guess {
    match ch
    case 'A' => Guessed(Acl)
    case 'B' => Guessed(Bind)
    case 'C' => Guessed(Connect)
    case 'D' => Guessed(Delete)
    case 'G' => Guessed(Get)
    case 'H' => Guessed(Head)
    case 'L' => Guessed(Lock)
    case 'M' => Guessed(MkCol)
    case 'N' => Guessed(Notify)
    case 'O' => Guessed(Options)
    case 'P' => Guessed(Post)
    case 'R' => Guessed(Report)
    case 'S' => Guessed(Subscribe)
    case 'T' => Guessed(Trace)
    case 'U' => Guessed(Unlock)
    case _ => NoMethod
  }

  /** Correction of a guess when character `ch` at position `index` does not fit it. */
  function Correct(m: Method, index: nat, ch: char): Guess {
    match m
    case Post =>
      if index == 1 && ch == 'U' then Guessed(Put)
      else if index == 1 && ch == 'A' then Guessed(Patch)
      else if index == 1 && ch == 'R' then Guessed(Propfind)
      else NoMethod
    case Put => if index == 2 && ch == 'R' then Guessed(Purge) else NoMethod
    case Connect =>
      if index == 1 && ch == 'H' then Guessed(Checkout)
      else if index == 2 && ch == 'P' then Guessed(Copy)
      else NoMethod
    case MkCol =>
      if index == 1 && ch == 'O' then Guessed(Move)
      else if index == 1 && ch == 'E' then Guessed(Merge)
      else if index == 1 && ch == '-' then Guessed(MSearch)
      else if index == 2 && ch == 'A' then Guessed(MkActivity)
      else if index == 3 && ch == 'A' then Guessed(MkCalendar)
      else NoMethod
    case Subscribe =>
      if index == 1 && ch == 'E' then Guessed(Search)
      else if index == 1 && ch == 'O' then Guessed(Source)
      else NoMethod
    case Report => if index == 2 && ch == 'B' then Guessed(Rebind) else NoMethod
    case Propfind => if index == 4 && ch == 'P' then Guessed(Proppatch) else NoMethod
    case Lock => if index == 1 && ch == 'I' then Guessed(Link) else NoMethod
    case Unlock =>
      if index == 2 && ch == 'S' then Guessed(Unsubscribe)
      else if index == 2 && ch == 'B' then Guessed(Unbind)
      else if index == 3 && ch == 'I' then Guessed(Unlink)
      else NoMethod
    case _ => NoMethod
  }

  /** One further character of a method name. */
  function Refine(m: Method, index: nat, ch: char): Guess {
    if index < |Name(m)| && ch == Name(m)[index] then Guessed(m)
    else if 'A' <= ch <= 'Z' || ch == '-' then Correct(m, index, ch)
    else NoMethod
  }

  /** The guess after the characters of `s`. */
  function Recognise(s: string): Guess
    requires |s| > 0
  {
    if |s| == 1 then FirstGuess(s[0])
    else
      var g := Recognise(s[..|s| - 1]);
      if g.NoMethod? then NoMethod else Refine(g.verb, |s| - 1, s[|s| - 1])
  }

  /** `s` is a beginning of the name of `m`. */
  predicate Begins(m: Method, s: string) {
    |s| <= |Name(m)| && forall i :: 0 <= i < |s| ==> Name(m)[i] == s[i]
  }

  /** A correction is only ever made to a name with that character at that position ... */
  lemma CorrectFits(m: Method, index: nat, ch: char)
    requires Correct(m, index, ch).Guessed?
    ensures var m' := Correct(m, index, ch).verb;
            index < |Name(m)| && index < |Name(m')| && Name(m')[index] == ch
  {
    if m.Post? || m.Put? || m.Connect? {
      PostFits(m, index, ch);
    } else if m.MkCol? {
      MkColFits(m, index, ch);
    } else if m.Subscribe? || m.Report? {
      ReportFits(m, index, ch);
    } else {
      LockFits(m, index, ch);
    }
    hide Name, Correct;
  }

  lemma PostFits(m: Method, index: nat, ch: char)
    requires (m.Post? || m.Put? || m.Connect?) && Correct(m, index, ch).Guessed?
    ensures var m' := Correct(m, index, ch).verb;
            index < |Name(m)| && index < |Name(m')| && Name(m')[index] == ch
  {
  }

  lemma MkColFits(m: Method, index: nat, ch: char)
    requires m.MkCol? && Correct(m, index, ch).Guessed?
    ensures var m' := Correct(m, index, ch).verb;
            index < |Name(m)| && index < |Name(m')| && Name(m')[index] == ch
  {
  }

  lemma ReportFits(m: Method, index: nat, ch: char)
    requires (m.Subscribe? || m.Report?) && Correct(m, index, ch).Guessed?
    ensures var m' := Correct(m, index, ch).verb;
            index < |Name(m)| && index < |Name(m')| && Name(m')[index] == ch
  {
  }

  lemma LockFits(m: Method, index: nat, ch: char)
    requires !m.Post? && !m.Put? && !m.Connect? && !m.MkCol? && !m.Subscribe? && !m.Report?
    requires Correct(m, index, ch).Guessed?
    ensures var m' := Correct(m, index, ch).verb;
            index < |Name(m)| && index < |Name(m')| && Name(m')[index] == ch
  {
  }

  /** ... and the same text before it. */
  lemma CorrectSharesPrefix(m: Method, index: nat, ch: char, i: nat)
    requires Correct(m, index, ch).Guessed? && i < index
    requires index < |Name(m)| && index < |Name(Correct(m, index, ch).verb)|
    ensures Name(Correct(m, index, ch).verb)[i] == Name(m)[i]
  {
  }

  lemma FirstGuessSound(ch: char)
    requires FirstGuess(ch).Guessed?
    ensures Begins(FirstGuess(ch).verb, [ch])
  {
  }

  /** Soundness: the guess always begins with exactly the text read. */
  lemma {:induction false} RecogniseSound(s: string)
    requires |s| > 0 && Recognise(s).Guessed?
    ensures Begins(Recognise(s).verb, s)
  {
    hide Name, Refine, FirstGuess;
    if |s| > 1 {
      var init := s[..|s| - 1];
      RecogniseSound(init);
      RefineSound(Recognise(init).verb, init, s[|s| - 1]);
      assert s == init + [s[|s| - 1]];
    } else {
      FirstGuessSound(s[0]);
      assert s == [s[0]];
    }
  }

  lemma RefineSound(m: Method, s: string, ch: char)
    requires |s| > 0 && Begins(m, s) && Refine(m, |s|, ch).Guessed?
    ensures Begins(Refine(m, |s|, ch).verb, s + [ch])
  {
    hide Name, Correct;
    if !(|s| < |Name(m)| && ch == Name(m)[|s|]) {
      CorrectFits(m, |s|, ch);
      forall i | 0 <= i < |s|
        ensures Name(Correct(m, |s|, ch).verb)[i] == s[i]
      {
        CorrectSharesPrefix(m, |s|, ch, i);
      }
    }
  }

  /** What the recogniser believes after the first `k` characters of `Name(m)`. */
  ghost function GuessAt(m: Method, k: nat): Method {
    match m
    case Put => if k < 2 then Post else m
    case Patch => if k < 2 then Post else m
    case Purge => if k < 2 then Post else if k < 3 then Put else m
    case Copy => if k < 3 then Connect else m
    case Checkout => if k < 2 then Connect else m
    case Move => if k < 2 then MkCol else m
    case Merge => if k < 2 then MkCol else m
    case MSearch => if k < 2 then MkCol else m
    case MkActivity => if k < 3 then MkCol else m
    case MkCalendar => if k < 4 then MkCol else m
    case Propfind => if k < 2 then Post else m
    case Proppatch => if k < 2 then Post else if k < 5 then Propfind else m
    case Search => if k < 2 then Subscribe else m
    case Source => if k < 2 then Subscribe else m
    case Rebind => if k < 3 then Report else m
    case Unsubscribe => if k < 3 then Unlock else m
    case Unbind => if k < 3 then Unlock else m
    case Unlink => if k < 4 then Unlock else m
    case Link => if k < 2 then Lock else m
    case _ => m
  }

  lemma GuessStepEarly(m: Method, k: nat)
    requires 1 <= k < |Name(m)| && k <= 2
    ensures Refine(GuessAt(m, k), k, Name(m)[k]) == Guessed(GuessAt(m, k + 1))
  {
  }

  lemma GuessStepLate(m: Method, k: nat)
    requires 3 <= k < |Name(m)|
    ensures Refine(GuessAt(m, k), k, Name(m)[k]) == Guessed(GuessAt(m, k + 1))
  {
    if k >= 5 {
      assert GuessAt(m, k) == m;
    }
  }

  lemma FirstGuessRight(m: Method)
    ensures |Name(m)| > 1 && FirstGuess(Name(m)[0]) == Guessed(GuessAt(m, 1))
    ensures GuessAt(m, |Name(m)|) == m
  {
  }

  lemma {:induction false} RecognisePrefix(m: Method, k: nat)
    requires 1 <= k <= |Name(m)|
    ensures Recognise(Name(m)[..k]) == Guessed(GuessAt(m, k))
  {
    hide Name, Refine, GuessAt, FirstGuess;
    var s := Name(m)[..k];
    if k == 1 {
      assert s[0] == Name(m)[0];
      FirstGuessRight(m);
    } else {
      RecognisePrefix(m, k - 1);
      assert s[..k - 1] == Name(m)[..k - 1];
      if k - 1 <= 2 {
        GuessStepEarly(m, k - 1);
      } else {
        GuessStepLate(m, k - 1);
      }
    }
  }

  /** Completeness: every method name is recognised as that method. */
  lemma RecogniseComplete(m: Method)
    ensures Recognise(Name(m)) == Guessed(m)
  {
    hide Name, Refine, GuessAt;
    FirstGuessRight(m);
    RecognisePrefix(m, |Name(m)|);
    assert Name(m)[..|Name(m)|] == Name(m);
  }
}
