/**
 * The `inbox_count` template tag: parsing `{% inbox_count %}` and
 * `{% inbox_count as name %}`, and rendering the user's unread count either
 * as text or into the template context.
 */
module Inbox {
  import opened Models

  // ---------------------------------------------------------------------
  // Splitting the tag into tokens
  // ---------------------------------------------------------------------

  /** The characters Python's `str.split()` treats as whitespace. */
  predicate IsSpace(c: char) {
    || ('\t' <= c <= '\r')
    || ('\U{1c}' <= c <= '\U{1f}')
    || c == ' ' || c == '\U{85}' || c == '\U{a0}' || c == '\U{1680}'
    || ('\U{2000}' <= c <= '\U{200a}')
    || c == '\U{2028}' || c == '\U{2029}' || c == '\U{202f}' || c == '\U{205f}' || c == '\U{3000}'
  }

  /** A non-empty token without whitespace. */
  predicate IsWord(w: string) {
    |w| > 0 && forall i :: 0 <= i < |w| ==> !IsSpace(w[i])
  }

  /** The length of the run of non-whitespace characters that starts `s`. */
  function WordLength(s: string): (n: nat)
    ensures n <= |s|
    ensures forall i :: 0 <= i < n ==> !IsSpace(s[i])
    ensures n < |s| ==> IsSpace(s[n])
  {
    if s == [] || IsSpace(s[0]) then 0 else 1 + WordLength(s[1..])
  }

  /** `s.split()`: the maximal runs of non-whitespace characters, in order. */
  function Split(s: string): (words: seq<string>)
    ensures forall i :: 0 <= i < |words| ==> IsWord(words[i])
    decreases |s|
  {
    if s == [] then []
    else if IsSpace(s[0]) then Split(s[1..])
    else
      var n := WordLength(s);
      [s[..n]] + Split(s[n..])
  }

  /** The words separated by single spaces. */
  function Join(words: seq<string>): string
    decreases |words|
  {
    if words == [] then ""
    else if |words| == 1 then words[0]
    else words[0] + " " + Join(words[1..])
  }

  lemma {:induction false} WordLengthOfWord(w: string, rest: string)
    requires IsWord(w)
    requires rest == [] || IsSpace(rest[0])
    ensures WordLength(w + rest) == |w|
    decreases |w|
  {
    if |w| == 1 {
      assert (w + rest)[1..] == rest;
    } else {
      assert (w + rest)[1..] == w[1..] + rest;
      WordLengthOfWord(w[1..], rest);
    }
  }

  /** Splitting words joined by spaces gives the words back. */
  lemma {:induction false} SplitJoin(words: seq<string>)
    requires forall i :: 0 <= i < |words| ==> IsWord(words[i])
    ensures Split(Join(words)) == words
    decreases |words|
  {
    if |words| == 1 {
      var w := words[0];
      WordLengthOfWord(w, []);
      assert w + [] == w;
      assert w[..|w|] == w && w[|w|..] == [];
    } else if |words| > 1 {
      var w := words[0];
      var rest := " " + Join(words[1..]);
      assert Join(words) == w + rest;
      WordLengthOfWord(w, rest);
      assert (w + rest)[..|w|] == w;
      assert (w + rest)[|w|..] == rest;
      assert rest[1..] == Join(words[1..]);
      SplitJoin(words[1..]);
    }
  }

  /** A word's run ends where whitespace (or the end) follows. */
  lemma {:induction false} WordLengthExtend(a: string, rest: string)
    requires rest == [] || IsSpace(rest[0])
    ensures WordLength(a + rest) == WordLength(a)
    decreases |a|
  {
    if a != [] && !IsSpace(a[0]) {
      assert (a + rest)[1..] == a[1..] + rest;
      WordLengthExtend(a[1..], rest);
    }
  }

  /**
   * Whitespace separates tokens: splitting at any whitespace character gives
   * the tokens before it followed by the tokens after it. With `SplitJoin` on
   * a single word, this fixes the tokens of every string.
   */
  lemma {:induction false} SplitAtSpace(a: string, c: char, b: string)
    requires IsSpace(c)
    ensures Split(a + [c] + b) == Split(a) + Split(b)
    decreases |a|
  {
    var s := a + [c] + b;
    if a == [] {
      assert s[1..] == b;
    } else if IsSpace(a[0]) {
      assert s[1..] == a[1..] + [c] + b;
      SplitAtSpace(a[1..], c, b);
    } else {
      var n := WordLength(a);
      WordLengthExtend(a, [c] + b);
      assert s == a + ([c] + b);
      assert s[..n] == a[..n];
      assert s[n..] == a[n..] + [c] + b;
      SplitAtSpace(a[n..], c, b);
    }
  }

  // ---------------------------------------------------------------------
  // Parsing: do_print_inbox_count
  // ---------------------------------------------------------------------

  /** The node the tag compiles to; `varname` is the name after `as`, if any. */
  datatype InboxOutput = InboxOutput(varname: Option<string>)

  datatype TemplateSyntaxError = TemplateSyntaxError(message: string)

  const ArityMessage: string := "inbox_count tag takes either no arguments or exactly two arguments"
  const AsMessage: string := "first argument to inbox_count tag must be 'as'"

  /**
   * `do_print_inbox_count` on the tag's contents (the tag name and its
   * arguments): the token count is checked before the `as` keyword.
   */
  function ParseTag(contents: string): (r: Result<InboxOutput, TemplateSyntaxError>)
    ensures var bits := Split(contents);
            && (r.Success? <==> |bits| <= 1 || (|bits| == 3 && bits[1] == "as"))
            && (r.Success? ==> r.value.varname == if |bits| == 3 then Some(bits[2]) else None)
            && (r.Success? && r.value.varname.Some? ==> IsWord(r.value.varname.value))
            && (r.Failure? ==> r.error.message == if |bits| != 3 then ArityMessage else AsMessage)
  {
    var bits := Split(contents);
    if |bits| > 1 then
      if |bits| != 3 then Failure(TemplateSyntaxError(ArityMessage))
      else if bits[1] != "as" then Failure(TemplateSyntaxError(AsMessage))
      else Success(InboxOutput(Some(bits[2])))
    else
      Success(InboxOutput(None))
  }

  /** The tag as a template author writes it for a node. */
  function TagText(node: InboxOutput): string {
    match node.varname
    case None => Join(["inbox_count"])
    case Some(name) => Join(["inbox_count", "as", name])
  }

  lemma KeywordsAreWords()
    ensures IsWord("inbox_count") && IsWord("as")
  {
    var name, kw := "inbox_count", "as";
    forall i | 0 <= i < |name| ensures !IsSpace(name[i]) {
      assert 'a' <= name[i] <= 'z' || name[i] == '_';
    }
    forall i | 0 <= i < |kw| ensures !IsSpace(kw[i]) {
      assert 'a' <= kw[i] <= 'z';
    }
  }

  /** Parsing the written tag gives back the node, for any variable name that is one token. */
  lemma ParseTagText(node: InboxOutput)
    requires node.varname.Some? ==> IsWord(node.varname.value)
    ensures ParseTag(TagText(node)) == Success(node)
  {
    KeywordsAreWords();
    match node.varname
    case None => SplitJoin(["inbox_count"]);
    case Some(name) => SplitJoin(["inbox_count", "as", name]);
  }

  /**
   * The token count is checked first: any argument list of a length other
   * than two is refused for its length, even when its first argument is `as`.
   */
  lemma ArityCheckedFirst(args: seq<string>)
    requires forall i :: 0 <= i < |args| ==> IsWord(args[i])
    requires |args| > 0 && |args| != 2
    ensures ParseTag(Join(["inbox_count"] + args)) == Failure(TemplateSyntaxError(ArityMessage))
  {
    var words := ["inbox_count"] + args;
    KeywordsAreWords();
    assert forall i :: 0 <= i < |words| ==> IsWord(words[i]) by {
      forall i | 0 <= i < |words| ensures IsWord(words[i]) {
        if i > 0 { assert words[i] == args[i - 1]; }
      }
    }
    SplitJoin(words);
  }

  /** Two arguments whose first is not `as` are refused for that reason. */
  lemma FirstArgumentMustBeAs(first: string, name: string)
    requires IsWord(first) && IsWord(name) && first != "as"
    ensures ParseTag(Join(["inbox_count", first, name])) == Failure(TemplateSyntaxError(AsMessage))
  {
    KeywordsAreWords();
    SplitJoin(["inbox_count", first, name]);
  }

  // ---------------------------------------------------------------------
  // Rendering: InboxOutput.render
  // ---------------------------------------------------------------------

  /**
   * A value in the template context: a user with a message relation, an
   * object without one (the anonymous user), a number or a string.
   */
  datatype Value = UserObj(id: UserId) | AnonymousUser | Number(n: nat) | Text(s: string)

  /** The user's received messages that are neither read nor deleted by them. */
  function UnreadCount(rows: seq<Message>, u: UserId): (n: nat)
    ensures n <= |ReceivedBy(rows, u)|
  {
    |UnreadOf(ReceivedBy(rows, u))|
  }

  lemma UnreadCountAppend(a: seq<Message>, b: seq<Message>, u: UserId)
    ensures UnreadCount(a + b, u) == UnreadCount(a, u) + UnreadCount(b, u)
  {
    ReceivedByAppend(a, b, u);
    UnreadOfAppend(ReceivedBy(a, u), ReceivedBy(b, u));
  }

  /** The positions of the rows the count counts. */
  function UnreadPositions(rows: seq<Message>, u: UserId): set<nat> {
    set i: nat | i < |rows| && rows[i].recipient == Some(u) && IsUnread(rows[i])
  }

  /** The count is the number of rows addressed to the user that are unread and not deleted. */
  lemma {:induction false} UnreadCountCountsRows(rows: seq<Message>, u: UserId)
    ensures UnreadCount(rows, u) == |UnreadPositions(rows, u)|
    decreases |rows|
  {
    if rows != [] {
      var n := |rows| - 1;
      var init := rows[..n];
      var last := rows[n];
      UnreadCountCountsRows(init, u);
      var mine := if last.recipient == Some(u) then [last] else [];
      assert ReceivedBy(rows, u) == ReceivedBy(init, u) + mine;
      UnreadOfAppend(ReceivedBy(init, u), mine);
      assert mine != [] ==> mine[..0] == [];
      UnreadPositionsSnoc(rows, u);
    }
  }

  lemma UnreadPositionsSnoc(rows: seq<Message>, u: UserId)
    requires rows != []
    ensures var n := |rows| - 1;
            var last := rows[n];
            && n !in UnreadPositions(rows[..n], u)
            && UnreadPositions(rows, u)
               == UnreadPositions(rows[..n], u) + if last.recipient == Some(u) && IsUnread(last) then {n} else {}
  {
    var n := |rows| - 1;
    var init := rows[..n];
    var counted := rows[n].recipient == Some(u) && IsUnread(rows[n]);
    forall i: nat
      ensures i in UnreadPositions(rows, u) <==> i in UnreadPositions(init, u) || (i == n && counted)
    {
      if i < n { assert rows[i] == init[i]; }
    }
  }

  /**
   * The value `render` computes: the unread count of the context's `user`,
   * or the empty string when there is no `user` or it has no messages.
   */
  function InboxCount(context: map<string, Value>, rows: seq<Message>): (count: Value)
    ensures count.Number? || count == Text("")
    ensures count.Number? <==> "user" in context && context["user"].UserObj?
    ensures count.Number? ==> count.n == UnreadCount(rows, context["user"].id)
  {
    if "user" in context && context["user"].UserObj? then Number(UnreadCount(rows, context["user"].id))
    else Text("")
  }

  function DigitChar(d: nat): char
    requires d < 10
  {
    "0123456789"[d]
  }

  function DigitValue(c: char): nat {
    if '0' <= c <= '9' then (c - '0') as nat else 0
  }

  /** `"%s" % n` for a non-negative integer: its decimal digits. */
  function Decimal(n: nat): (s: string)
    ensures |s| > 0
    ensures forall i :: 0 <= i < |s| ==> '0' <= s[i] <= '9'
    ensures |s| > 1 ==> s[0] != '0'
  {
    if n < 10 then [DigitChar(n)] else Decimal(n / 10) + [DigitChar(n % 10)]
  }

  /** The number a string of decimal digits denotes. */
  function DecimalValue(s: string): nat {
    if s == [] then 0 else DecimalValue(s[..|s| - 1]) * 10 + DigitValue(s[|s| - 1])
  }

  lemma {:induction false} DecimalRoundTrip(n: nat)
    ensures DecimalValue(Decimal(n)) == n
  {
    if n < 10 {
      assert Decimal(n)[..0] == [];
    } else {
      var s := Decimal(n);
      assert s[..|s| - 1] == Decimal(n / 10);
      DecimalRoundTrip(n / 10);
    }
  }

  /** `"%s" % count` for what `InboxCount` yields. */
  function Display(count: Value): string
    requires count.Number? || count.Text?
  {
    match count
    case Number(n) => Decimal(n)
    case Text(s) => s
  }

  /** The rendering context (a single variable scope). */
  class Context {
    var vars: map<string, Value>

    constructor (vars: map<string, Value>)
      ensures this.vars == vars
    {
      this.vars := vars;
    }
  }

  /**
   * `InboxOutput.render`: with a variable name, store the count under it and
   * render nothing; without one, render the count.
   */
  method Render(node: InboxOutput, context: Context, rows: seq<Message>) returns (output: string)
    modifies context
    ensures var count := InboxCount(old(context.vars), rows);
            if node.varname.Some? then
              && context.vars == old(context.vars)[node.varname.value := count]
              && output == ""
            else
              && context.vars == old(context.vars)
              && output == Display(count)
    ensures forall k :: k in old(context.vars) && (node.varname.None? || k != node.varname.value) ==>
              k in context.vars && context.vars[k] == old(context.vars)[k]
  {
    var count := InboxCount(context.vars, rows);
    if node.varname.Some? {
      context.vars := context.vars[node.varname.value := count];
      output := "";
    } else {
      output := Display(count);
    }
  }
}
