/** The label stoplist test of `utils.is_generic_phrase`: a phrase is "generic" when every
    alphanumeric token of it, lower-cased and with a plural `s` folded away, is one of a
    fixed set of uninformative words. */
module GenericPhrase {
  import opened Wrappers
  import opened Text

  /** `GENERIC_LABEL_STOPLIST`. */
  const Stoplist: set<string> := {
    "artificial", "intelligence", "language",
    "agent", "agents",
    "model", "models",
    "system", "systems",
    "approach", "method", "task", "dataset",
    "framework", "paper", "study"
  }

  /** `re.findall(r"[A-Za-z0-9]+", (phrase or "").lower())`. */
  function Tokens(phrase: Option<string>): seq<string> {
    Runs(Lower(OrEmpty(phrase)), IsAsciiAlnum)
  }

  /** Drops one trailing `s` from tokens longer than three characters. */
  function Normalize(t: string): string {
    if |t| > 3 && t[|t| - 1] == 's' then t[..|t| - 1] else t
  }

  function NormalizeAll(toks: seq<string>): (r: seq<string>)
    ensures |r| == |toks|
    ensures forall i :: 0 <= i < |toks| ==> r[i] == Normalize(toks[i])
  {
    seq(|toks|, i requires 0 <= i < |toks| => Normalize(toks[i]))
  }

  /** `is_generic_phrase`: no token at all, a single stoplisted token, or only stoplisted tokens.
      Its meaning: every normalised token is in the stoplist (vacuously so with no tokens). */
  predicate IsGenericPhrase(phrase: Option<string>): (r: bool)
    ensures r <==> forall t :: t in Tokens(phrase) ==> Normalize(t) in Stoplist
  {
    var toks := Tokens(phrase);
    if toks == [] then true
    else
      var norm := NormalizeAll(toks);
      if |norm| == 1 && norm[0] in Stoplist then true
      else forall t | t in norm :: t in Stoplist
  }

  /** A phrase with no `[A-Za-z0-9]+` token, `None` and `""` included, is generic. */
  lemma NoTokenIsGeneric(phrase: Option<string>)
    requires phrase == None || phrase == Some("") || Tokens(phrase) == []
    ensures IsGenericPhrase(phrase)
  {
  }

  /** One token outside the stoplist makes the phrase informative. */
  lemma InformativeToken(phrase: Option<string>, t: string)
    requires t in Tokens(phrase) && Normalize(t) !in Stoplist
    ensures !IsGenericPhrase(phrase)
  {
  }

  /** Plural folding: "models" becomes "model", short tokens such as "its" are left alone. */
  lemma PluralFolding(t: string)
    ensures |t| <= 3 ==> Normalize(t) == t
    ensures |t| > 3 && t[|t| - 1] == 's' ==> Normalize(t) + "s" == t
    ensures Normalize("models") == "model" && Normalize("its") == "its"
  {
    assert "models"[..5] == "model";
  }

  /** Matching is case-insensitive. */
  lemma CaseInsensitive(s: string)
    ensures IsGenericPhrase(Some(Upper(s))) == IsGenericPhrase(Some(s))
  {
    LowerForgetsCase(s);
    assert Tokens(Some(Upper(s))) == Tokens(Some(s));
  }

  /** Lower-cased alphanumeric words stay non-empty and alphanumeric. */
  lemma LowerAllAlnum(ws: seq<string>)
    requires forall i :: 0 <= i < |ws| ==> ws[i] != [] && All(ws[i], IsAsciiAlnum)
    ensures forall i :: 0 <= i < |ws| ==> LowerAll(ws)[i] != [] && All(LowerAll(ws)[i], IsAsciiAlnum)
  {
    forall i | 0 <= i < |ws|
      ensures LowerAll(ws)[i] != [] && All(LowerAll(ws)[i], IsAsciiAlnum)
    {
      LowerKeepsAlnum(ws[i]);
    }
  }

  /** Scanning the lower-cased joined words for runs gives the lower-cased words back, when the
      separator holds no letter or digit. */
  lemma RunsOfLowerJoin(ws: seq<string>, sep: string)
    requires forall i :: 0 <= i < |ws| ==> ws[i] != [] && All(ws[i], IsAsciiAlnum)
    requires sep != [] && forall k :: 0 <= k < |sep| ==> !IsAsciiAlnum(sep[k])
    ensures Runs(Lower(Join(ws, sep)), IsAsciiAlnum) == LowerAll(ws)
  {
    LowerJoin(ws, sep);
    var ls := Lower(sep);
    forall k | 0 <= k < |ls| ensures !IsAsciiAlnum(ls[k]) {
      assert !IsAsciiAlnum(sep[k]);
    }
    LowerAllAlnum(ws);
    RunsOfJoin(LowerAll(ws), ls, IsAsciiAlnum);
  }

  /** The lower-cased words of a space-joined phrase are exactly its tokens. */
  lemma TokensOfJoin(ws: seq<string>)
    requires forall i :: 0 <= i < |ws| ==> ws[i] != [] && All(ws[i], IsAsciiAlnum)
    ensures Tokens(Some(Join(ws, " "))) == LowerAll(ws)
  {
    assert !IsAsciiAlnum(' ');
    RunsOfLowerJoin(ws, " ");
  }

  /** Reordering or repeating the words of a phrase never changes the verdict. */
  lemma IgnoresOrderAndRepeats(ws1: seq<string>, ws2: seq<string>)
    requires forall i :: 0 <= i < |ws1| ==> ws1[i] != [] && All(ws1[i], IsAsciiAlnum)
    requires forall i :: 0 <= i < |ws2| ==> ws2[i] != [] && All(ws2[i], IsAsciiAlnum)
    requires forall w :: w in ws1 <==> w in ws2
    ensures IsGenericPhrase(Some(Join(ws1, " "))) == IsGenericPhrase(Some(Join(ws2, " ")))
  {
    TokensOfJoin(ws1);
    TokensOfJoin(ws2);
    SameWordsSameTokens(ws1, ws2);
  }

  lemma SameWordsSameTokens(ws1: seq<string>, ws2: seq<string>)
    requires forall w :: w in ws1 <==> w in ws2
    ensures forall t :: t in LowerAll(ws1) <==> t in LowerAll(ws2)
  {
    var l1, l2 := LowerAll(ws1), LowerAll(ws2);
    forall t | t in l1 ensures t in l2 {
      var i :| 0 <= i < |l1| && l1[i] == t;
      assert ws1[i] in ws2;
      var j :| 0 <= j < |ws2| && ws2[j] == ws1[i];
      assert l2[j] == t;
    }
    forall t | t in l2 ensures t in l1 {
      var i :| 0 <= i < |l2| && l2[i] == t;
      assert ws2[i] in ws1;
      var j :| 0 <= j < |ws1| && ws1[j] == ws2[i];
      assert l1[j] == t;
    }
  }
}
