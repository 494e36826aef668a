/** Paths, translated component by component. */
module LitePaths {
  import opened Common

  const SLASH: byte := 0x2F

  /** `OutOfBounds` stands for a read behind the end of a buffer, which has no defined outcome. */
  datatype Error = NameTooLong | NotBase32 | InvalidFilename | OutOfBounds

  type Outcome = Result<Bytes, Error>

  /** Translates one non-empty component. */
  type Translator = Bytes -> Outcome

  ghost predicate SlashFree(s: Bytes) {
    forall i :: 0 <= i < |s| ==> s[i] != SLASH
  }

  function FirstSlash(s: Bytes): (k: nat)
    ensures k <= |s|
    ensures k < |s| ==> s[k] == SLASH
    ensures forall i :: 0 <= i < k ==> s[i] != SLASH
  {
    if s == [] || s[0] == SLASH then 0 else 1 + FirstSlash(s[1..])
  }

  function Cat(a: Bytes, r: Outcome): Outcome {
    if r.Ok? then Ok(a + r.value) else r
  }

  /** Empty components stay empty. */
  function Piece(f: Translator, c: Bytes): Outcome {
    if c == [] then Ok([]) else f(c)
  }

  /** Two translated parts with the slash between them. */
  function Join(a: Outcome, b: Outcome): Outcome {
    if a.Ok? then Cat(a.value + [SLASH], b) else a
  }

  /** The components translated one after the other, up to the first failure; slashes stay. */
  function Translate(f: Translator, path: Bytes): Outcome
    decreases |path|
  {
    var k := FirstSlash(path);
    var first := Piece(f, path[..k]);
    if first.Err? then first
    else if k == |path| then first
    else Join(first, Translate(f, path[k + 1..]))
  }

  // --- The scanning loop --------------------------------------------------------------------------

  lemma CatCat(a: Bytes, b: Bytes, r: Outcome)
    ensures Cat(a, Cat(b, r)) == Cat(a + b, r)
  {
    if r.Ok? { assert a + (b + r.value) == a + b + r.value; }
  }

  lemma CatEmpty(r: Outcome)
    ensures Cat([], r) == r
  {
    if r.Ok? { assert [] + r.value == r.value; }
  }

  lemma FirstSlashIs(s: Bytes, k: nat)
    requires k <= |s| && (k < |s| ==> s[k] == SLASH) && forall i :: 0 <= i < k ==> s[i] != SLASH
    ensures FirstSlash(s) == k
  {
    var m := FirstSlash(s);
    assert m < |s| ==> s[m] == SLASH;
  }

  /** One component further. */
  lemma SegmentDone(f: Translator, path: Bytes, last: nat, i: nat, before: Bytes)
    requires last <= i <= |path| && (i < |path| ==> path[i] == SLASH)
    requires forall k :: last <= k < i ==> path[k] != SLASH
    requires Piece(f, path[last..i]).Ok?
    ensures var piece := Piece(f, path[last..i]).value;
            Cat(before, Translate(f, path[last..])) ==
            if i == |path| then Ok(before + piece) else Cat(before + piece + [SLASH], Translate(f, path[i + 1..]))
  {
    var rest := path[last..];
    FirstSlashIs(rest, i - last);
    assert rest[..i - last] == path[last..i];
    var piece := Piece(f, path[last..i]).value;
    if i < |path| {
      assert rest[i - last + 1..] == path[i + 1..];
      CatCat(before, piece + [SLASH], Translate(f, path[i + 1..]));
      assert before + (piece + [SLASH]) == before + piece + [SLASH];
    }
  }

  /** What is still to come of the translation once `result` stands for `path[..last]`. */
  ghost function Remaining(f: Translator, path: Bytes, result: Bytes, last: nat): Outcome {
    if last <= |path| then Cat(result, Translate(f, path[last..])) else Ok(result)
  }

  /** Translates the component between two separators and copies the separator. */
  method Segment(f: Translator, path: Bytes, last: nat, i: nat, result: Bytes) returns (r: Outcome)
    requires last <= i <= |path| && (i < |path| ==> path[i] == SLASH)
    requires forall k :: last <= k < i ==> path[k] != SLASH
    ensures Remaining(f, path, result, last) == if r.Ok? then Remaining(f, path, r.value, i + 1) else r
  {
    ghost var rest := path[last..];
    FirstSlashIs(rest, i - last);
    assert rest[..i - last] == path[last..i];
    var text := result;
    if i > last {
      var piece := f(path[last..i]);
      if piece.Err? {
        return piece;
      }
      text := text + piece.value;
    }
    assert text == result + Piece(f, path[last..i]).value;
    if i < |path| {
      text := text + [SLASH];
    }
    SegmentDone(f, path, last, i, result);
    r := Ok(text);
  }

  /** Scans for separators, translating what lies between them. */
  method TranslatePath(f: Translator, path: Bytes) returns (r: Outcome)
    ensures r == Translate(f, path)
  {
    hide Translate, FirstSlash;
    var result: Bytes := [];
    var last := 0;
    CatEmpty(Translate(f, path));
    assert path[0..] == path;
    for i := 0 to |path| + 1
      invariant last <= i && (i == |path| + 1 ==> last == |path| + 1)
      invariant forall k :: last <= k < i ==> path[k] != SLASH
      invariant Translate(f, path) == Remaining(f, path, result, last)
    {
      if i >= |path| || path[i] == SLASH {
        r := Segment(f, path, last, i, result);
        if r.Err? {
          return;
        }
        result := r.value;
        last := i + 1;
      }
    }
    r := Ok(result);
  }

  // --- Structure --------------------------------------------------------------------------------

  lemma JoinJoin(a: Outcome, b: Outcome, c: Outcome)
    ensures Join(Join(a, b), c) == Join(a, Join(b, c))
  {
    if a.Ok? && b.Ok? {
      CatCat(a.value + [SLASH], b.value + [SLASH], c);
      assert a.value + [SLASH] + (b.value + [SLASH]) == a.value + [SLASH] + b.value + [SLASH];
    }
  }

  /** A path is one component, or a component, a slash and a path. */
  lemma Split(path: Bytes)
    ensures var k := FirstSlash(path);
            SlashFree(path[..k]) && path == if k == |path| then path[..k] else path[..k] + [SLASH] + path[k + 1..]
  {
    SplitAt(path, FirstSlash(path));
  }

  lemma SplitAt(path: Bytes, k: nat)
    requires k <= |path|
    ensures k == |path| ==> path[..k] == path
    ensures k < |path| ==> path == path[..k] + [path[k]] + path[k + 1..]
  {
  }

  lemma FirstSlashBehind(c: Bytes, rest: Bytes)
    requires SlashFree(c)
    ensures FirstSlash(c) == |c| && FirstSlash(c + [SLASH] + rest) == |c|
  {
    FirstSlashIs(c, |c|);
    FirstSlashIs(c + [SLASH] + rest, |c|);
  }

  lemma TranslateFirst(f: Translator, c: Bytes, rest: Bytes)
    requires SlashFree(c)
    ensures Translate(f, c) == Piece(f, c)
    ensures Translate(f, c + [SLASH] + rest) == Join(Piece(f, c), Translate(f, rest))
  {
    FirstSlashBehind(c, rest);
    assert c[..|c|] == c;
    assert (c + [SLASH] + rest)[..|c|] == c && (c + [SLASH] + rest)[|c| + 1..] == rest;
  }

  /** Translation works on the parts of a path independently. */
  lemma {:induction false} TranslateJoin(f: Translator, a: Bytes, b: Bytes)
    ensures Translate(f, a + [SLASH] + b) == Join(Translate(f, a), Translate(f, b))
    decreases |a|
  {
    Split(a);
    var k := FirstSlash(a);
    var c := a[..k];
    if k == |a| {
      TranslateFirst(f, c, b);
    } else {
      var rest := a[k + 1..];
      TranslateJoin(f, rest, b);
      TranslateFirst(f, c, rest);
      TranslateFirst(f, c, rest + [SLASH] + b);
      assert a + [SLASH] + b == c + [SLASH] + (rest + [SLASH] + b);
      JoinJoin(Piece(f, c), Translate(f, rest), Translate(f, b));
    }
  }

  /** `g` undoes `f` on components, and `f` yields components. */
  ghost predicate Undoes(f: Translator, g: Translator) {
    forall c {:trigger f(c)} :: c != [] && SlashFree(c) && f(c).Ok? ==>
      f(c).value != [] && SlashFree(f(c).value) && g(f(c).value) == Ok(c)
  }

  lemma PieceBack(f: Translator, g: Translator, c: Bytes)
    requires Undoes(f, g) && SlashFree(c) && Piece(f, c).Ok?
    ensures SlashFree(Piece(f, c).value) && Piece(g, Piece(f, c).value) == Ok(c)
  {
    assert c != [] ==> f(c).Ok?;
  }

  /** Translating back gives the path again, with all its slashes. */
  lemma {:induction false} TranslateBack(f: Translator, g: Translator, path: Bytes)
    requires Undoes(f, g) && Translate(f, path).Ok?
    ensures Translate(g, Translate(f, path).value) == Ok(path)
    decreases |path|
  {
    Split(path);
    var k := FirstSlash(path);
    var c := path[..k];
    if k == |path| {
      TranslateFirst(f, c, []);
      PieceBack(f, g, c);
      TranslateFirst(g, Piece(f, c).value, []);
    } else {
      var rest := path[k + 1..];
      TranslateFirst(f, c, rest);
      PieceBack(f, g, c);
      TranslateBack(f, g, rest);
      TranslateFirst(g, Piece(f, c).value, Translate(f, rest).value);
    }
  }

  /** Some component cannot be translated. */
  ghost predicate SomeFails(f: Translator, path: Bytes)
    decreases |path|
  {
    var k := FirstSlash(path);
    Piece(f, path[..k]).Err? || (k < |path| && SomeFails(f, path[k + 1..]))
  }

  /** The first component that cannot be translated fails with `e`. */
  ghost predicate FirstFailsWith(f: Translator, path: Bytes, e: Error)
    decreases |path|
  {
    var k := FirstSlash(path);
    var first := Piece(f, path[..k]);
    first == Err(e) || (first.Ok? && k < |path| && FirstFailsWith(f, path[k + 1..], e))
  }

  lemma {:induction false} FailsWith(f: Translator, path: Bytes, e: Error)
    ensures Translate(f, path) == Err(e) <==> FirstFailsWith(f, path, e)
    decreases |path|
  {
    var k := FirstSlash(path);
    if k < |path| { FailsWith(f, path[k + 1..], e); }
  }

  /** Every component is empty or has at least `n` bytes. */
  ghost predicate LongComponents(path: Bytes, n: nat)
    decreases |path|
  {
    var k := FirstSlash(path);
    (k == 0 || k >= n) && (k < |path| ==> LongComponents(path[k + 1..], n))
  }

  lemma {:induction false} LongNeverFails(f: Translator, path: Bytes, n: nat, e: Error)
    requires forall c {:trigger f(c)} :: |c| >= n ==> f(c) != Err(e)
    ensures LongComponents(path, n) ==> !FirstFailsWith(f, path, e)
    decreases |path|
  {
    var k := FirstSlash(path);
    if k < |path| { LongNeverFails(f, path[k + 1..], n, e); }
  }

  lemma LongFirst(c: Bytes, rest: Bytes, n: nat)
    requires SlashFree(c)
    ensures LongComponents(c, n) <==> c == [] || |c| >= n
    ensures LongComponents(c + [SLASH] + rest, n) <==> (c == [] || |c| >= n) && LongComponents(rest, n)
  {
    FirstSlashBehind(c, rest);
    assert (c + [SLASH] + rest)[|c| + 1..] == rest;
  }

  /** A translator whose results are long gives paths of long components. */
  lemma {:induction false} TranslatesLong(f: Translator, g: Translator, path: Bytes, n: nat)
    requires Undoes(f, g) && Translate(f, path).Ok?
    requires forall c {:trigger f(c)} :: c != [] && f(c).Ok? ==> |f(c).value| >= n
    ensures LongComponents(Translate(f, path).value, n)
    decreases |path|
  {
    Split(path);
    var k := FirstSlash(path);
    var c := path[..k];
    if k == |path| {
      TranslateFirst(f, c, []);
      PieceBack(f, g, c);
      LongFirst(Piece(f, c).value, [], n);
    } else {
      var rest := path[k + 1..];
      TranslateFirst(f, c, rest);
      PieceBack(f, g, c);
      TranslatesLong(f, g, rest, n);
      LongFirst(Piece(f, c).value, Translate(f, rest).value, n);
    }
  }

  lemma {:induction false} FailsExactly(f: Translator, path: Bytes)
    ensures Translate(f, path).Err? <==> SomeFails(f, path)
    decreases |path|
  {
    var k := FirstSlash(path);
    if k < |path| { FailsExactly(f, path[k + 1..]); }
  }
}
