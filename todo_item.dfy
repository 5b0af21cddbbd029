/** A single to-do entry and the validation its text goes through before
    it is added: the input is trimmed, then rejected when it is empty or
    longer than 100 characters. */
module TodoItem {

  datatype Result<T, E> = Ok(value: T) | Err(error: E)

  /** One entry of the list. `createdAt` is the clock reading taken when the
      entry was added; `id` is the value of the store's counter after it was
      pre-incremented. */
  datatype Todo = Todo(id: nat, text: string, completed: bool, createdAt: nat)

  /** Why an input was refused. */
  datatype TextError = EmptyText | TooLong

  const MaxTextLength: nat := 100

  /** The characters `String.prototype.trim` removes: the ECMAScript
      WhiteSpace code points (tab, vertical tab, form feed, space, no-break
      space, the byte order mark and the Unicode space separators) and the
      LineTerminator code points. */
  const Whitespace: set<char> := {
    '\t', '\n', '\U{B}', '\U{C}', '\r', ' ', '\U{A0}', '\U{1680}',
    '\U{2000}', '\U{2001}', '\U{2002}', '\U{2003}', '\U{2004}', '\U{2005}',
    '\U{2006}', '\U{2007}', '\U{2008}', '\U{2009}', '\U{200A}',
    '\U{2028}', '\U{2029}', '\U{202F}', '\U{205F}', '\U{3000}', '\U{FEFF}'
  }

  predicate IsWhitespace(c: char) {
    c in Whitespace
  }

  /** Every character of `s` from index `lo` up to (not including) `hi` is
      whitespace. */
  predicate WhitespaceBetween(s: string, lo: nat, hi: nat)
    requires lo <= hi <= |s|
  {
    forall i :: lo <= i < hi ==> IsWhitespace(s[i])
  }

  predicate AllWhitespace(s: string) {
    WhitespaceBetween(s, 0, |s|)
  }

  /** Neither end of `s` is a whitespace character. */
  predicate IsTrimmed(s: string) {
    s == [] || (!IsWhitespace(s[0]) && !IsWhitespace(s[|s| - 1]))
  }

  /** The first index at or after `from` that does not hold whitespace, or
      `|s|` when there is none. */
  function SkipLeading(s: string, from: nat): (k: nat)
    requires from <= |s|
    ensures from <= k <= |s|
    ensures WhitespaceBetween(s, from, k)
    ensures k < |s| ==> !IsWhitespace(s[k])
    decreases |s| - from
  {
    if from == |s| || !IsWhitespace(s[from]) then from
    else SkipLeading(s, from + 1)
  }

  /** The start of the run of whitespace that ends at `upto`, not going
      below `floor`. */
  function SkipTrailing(s: string, floor: nat, upto: nat): (k: nat)
    requires floor <= upto <= |s|
    ensures floor <= k <= upto
    ensures WhitespaceBetween(s, k, upto)
    ensures floor < k ==> !IsWhitespace(s[k - 1])
    decreases upto - floor
  {
    if upto == floor || !IsWhitespace(s[upto - 1]) then upto
    else SkipTrailing(s, floor, upto - 1)
  }

  /** Where `trim` cuts `s`: only whitespace lies before `lo` and from `hi`
      on, and a non-empty kept part starts and ends with a character that is
      not whitespace. */
  function TrimBounds(s: string): (b: (nat, nat))
    ensures b.0 <= b.1 <= |s|
    ensures WhitespaceBetween(s, 0, b.0) && WhitespaceBetween(s, b.1, |s|)
    ensures b.0 < b.1 ==> !IsWhitespace(s[b.0]) && !IsWhitespace(s[b.1 - 1])
  {
    var lo := SkipLeading(s, 0);
    (lo, SkipTrailing(s, lo, |s|))
  }

  /** `s.trim()`: `s` with its leading and trailing whitespace removed. */
  function Trim(s: string): (r: string)
    ensures |r| <= |s|
    ensures IsTrimmed(r)
    ensures r == [] <==> AllWhitespace(s)
  {
    var b := TrimBounds(s);
    assert b.0 < b.1 ==> !AllWhitespace(s);
    s[b.0..b.1]
  }

  /** `trim` is determined by what it promises: any cut that leaves only
      whitespace outside and a trimmed slice inside is the one it makes. */
  lemma TrimUnique(s: string, lo: nat, hi: nat)
    requires lo <= hi <= |s|
    requires WhitespaceBetween(s, 0, lo) && WhitespaceBetween(s, hi, |s|)
    requires IsTrimmed(s[lo..hi])
    ensures Trim(s) == s[lo..hi]
  {
    var b := TrimBounds(s);
    if lo < hi {
      assert !IsWhitespace(s[lo]) && !IsWhitespace(s[hi - 1]);
      assert b.0 == lo;
      assert b.1 == hi;
    } else {
      assert AllWhitespace(s);
    }
  }

  /** Text that may be stored in a to-do entry: already trimmed and between
      1 and 100 characters long. */
  predicate AcceptableText(t: string) {
    0 < |t| <= MaxTextLength && IsTrimmed(t)
  }

  /** The checks `todoList` makes on the raw input before it adds anything. */
  function CheckText(raw: string): (r: Result<string, TextError>)
    ensures r == Err(EmptyText) <==> AllWhitespace(raw)
    ensures r == Err(TooLong) <==> |Trim(raw)| > MaxTextLength
    ensures r.Ok? ==> r.value == Trim(raw) && AcceptableText(r.value)
  {
    var text := Trim(raw);
    if text == [] then Err(EmptyText)
    else if |text| > MaxTextLength then Err(TooLong)
    else Ok(text)
  }

  /** Trimming text that has no whitespace at either end returns it unchanged. */
  lemma TrimOfTrimmed(t: string)
    requires IsTrimmed(t)
    ensures Trim(t) == t
  {
    assert t[0..|t|] == t;
    assert WhitespaceBetween(t, 0, 0) && WhitespaceBetween(t, |t|, |t|);
    TrimUnique(t, 0, |t|);
  }

  /** Trimming a second time changes nothing. */
  lemma TrimIdempotent(s: string)
    ensures Trim(Trim(s)) == Trim(s)
  {
    TrimOfTrimmed(Trim(s));
  }

  /** Text already held by the list passes the checks again unchanged. */
  lemma AcceptableTextIsFixed(t: string)
    requires AcceptableText(t)
    ensures CheckText(t) == Ok(t)
  {
    TrimOfTrimmed(t);
  }
}
