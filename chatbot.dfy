/** The campus-direction chat widget: a three-stage lookup of a building
    ("bhavan") by name, and the send handler that ignores blank input. The
    building table, a bundled JSON file, is a parameter here. */
module ChatBot {
  import opened Wrappers
  import opened Strings

  /** One entry of the building table: its name and the directions to it. */
  datatype Bhavan = Bhavan(bhavan: string, way: string)

  /** Array.prototype.findIndex: the first index whose entry satisfies p, or -1. */
  function FindIndex(entries: seq<Bhavan>, p: Bhavan -> bool): (i: int)
    ensures -1 <= i < |entries|
    ensures i >= 0 ==> p(entries[i])
    ensures forall j :: 0 <= j < |entries| && (i < 0 || j < i) ==> !p(entries[j])
  {
    if entries == [] then -1
    else if p(entries[0]) then 0
    else
      var k := FindIndex(entries[1..], p);
      assert forall j :: 1 <= j < |entries| ==> entries[j] == entries[1..][j - 1];
      if k < 0 then -1 else k + 1
  }

  /** Array.prototype.find. */
  function Find(entries: seq<Bhavan>, p: Bhavan -> bool): (r: Option<Bhavan>)
    ensures r.None? <==> forall j :: 0 <= j < |entries| ==> !p(entries[j])
    ensures r.Some? ==> r.value in entries && p(r.value)
  {
    var i := FindIndex(entries, p);
    if i < 0 then None else Some(entries[i])
  }

  /** Stage one: the lower-cased name is the search. */
  predicate ExactMatch(b: Bhavan, lowerSearch: string)
  {
    ToLower(b.bhavan) == lowerSearch
  }

  /** Stage two: the lower-cased name includes the search. */
  predicate ContainsMatch(b: Bhavan, lowerSearch: string)
  {
    Contains(ToLower(b.bhavan), lowerSearch)
  }

  /** Stage three: some space-separated word of the lower-cased name starts
      with the search. */
  predicate FuzzyMatch(b: Bhavan, lowerSearch: string)
  {
    var words := Split(ToLower(b.bhavan), ' ');
    exists k :: 0 <= k < |words| && StartsWith(words[k], lowerSearch)
  }

  /** findBhavan: exact match, else contains match, else word-prefix match,
      else null. */
  function FindBhavan(entries: seq<Bhavan>, searchTerm: string): (r: Option<Bhavan>)
    ensures r.Some? ==> r.value in entries
  {
    var lowerSearch := ToLower(searchTerm);
    var exactMatch := Find(entries, b => ExactMatch(b, lowerSearch));
    if exactMatch.Some? then exactMatch
    else
      var containsMatch := Find(entries, b => ContainsMatch(b, lowerSearch));
      if containsMatch.Some? then containsMatch
      else Find(entries, b => FuzzyMatch(b, lowerSearch))
  }

  lemma ExactImpliesContains(b: Bhavan, lowerSearch: string)
    requires ExactMatch(b, lowerSearch)
    ensures ContainsMatch(b, lowerSearch)
  {
    assert StartsWith(ToLower(b.bhavan), lowerSearch);
  }

  /** A word is a substring of the name, so a name with a word starting
      with the search contains the search. */
  lemma FuzzyImpliesContains(b: Bhavan, lowerSearch: string)
    requires FuzzyMatch(b, lowerSearch)
    ensures ContainsMatch(b, lowerSearch)
  {
    var name := ToLower(b.bhavan);
    var words := Split(name, ' ');
    var k :| 0 <= k < |words| && StartsWith(words[k], lowerSearch);
    SplitPiecesAreInfixes(name, ' ');
    assert words[k] in words;
    ContainsPrefixOfInfix(name, words[k], lowerSearch);
  }

  /** If some name equals the search (ignoring ASCII case), the first such
      entry is the answer. */
  lemma FindBhavanExact(entries: seq<Bhavan>, searchTerm: string, i: nat)
    requires i < |entries| && ExactMatch(entries[i], ToLower(searchTerm))
    requires forall j :: 0 <= j < i ==> !ExactMatch(entries[j], ToLower(searchTerm))
    ensures FindBhavan(entries, searchTerm) == Some(entries[i])
  {
    var lowerSearch := ToLower(searchTerm);
    assert FindIndex(entries, b => ExactMatch(b, lowerSearch)) == i;
  }

  /** Otherwise the first entry whose name contains the search is the answer. */
  lemma FindBhavanContains(entries: seq<Bhavan>, searchTerm: string, i: nat)
    requires forall j :: 0 <= j < |entries| ==> !ExactMatch(entries[j], ToLower(searchTerm))
    requires i < |entries| && ContainsMatch(entries[i], ToLower(searchTerm))
    requires forall j :: 0 <= j < i ==> !ContainsMatch(entries[j], ToLower(searchTerm))
    ensures FindBhavan(entries, searchTerm) == Some(entries[i])
  {
    var lowerSearch := ToLower(searchTerm);
    assert FindIndex(entries, b => ExactMatch(b, lowerSearch)) == -1;
    assert FindIndex(entries, b => ContainsMatch(b, lowerSearch)) == i;
  }

  /** The lookup without its third stage. */
  function FindBhavanTwoStage(entries: seq<Bhavan>, searchTerm: string): Option<Bhavan>
  {
    var lowerSearch := ToLower(searchTerm);
    var exactMatch := Find(entries, b => ExactMatch(b, lowerSearch));
    if exactMatch.Some? then exactMatch else Find(entries, b => ContainsMatch(b, lowerSearch))
  }

  /** The word-prefix stage never changes the answer: it only runs when no
      name contains the search, and then no name has a word starting with it. */
  lemma FuzzyStageRedundant(entries: seq<Bhavan>, searchTerm: string)
    ensures FindBhavan(entries, searchTerm) == FindBhavanTwoStage(entries, searchTerm)
  {
    var lowerSearch := ToLower(searchTerm);
    if Find(entries, b => ContainsMatch(b, lowerSearch)).None? {
      forall j | 0 <= j < |entries| ensures !FuzzyMatch(entries[j], lowerSearch) {
        if FuzzyMatch(entries[j], lowerSearch) {
          FuzzyImpliesContains(entries[j], lowerSearch);
        }
      }
    }
  }

  /** The answer is null exactly when no lower-cased name contains the
      lower-cased search. */
  lemma FindBhavanNull(entries: seq<Bhavan>, searchTerm: string)
    ensures FindBhavan(entries, searchTerm).None? <==>
      forall j :: 0 <= j < |entries| ==> !ContainsMatch(entries[j], ToLower(searchTerm))
  {
    var lowerSearch := ToLower(searchTerm);
    FuzzyStageRedundant(entries, searchTerm);
    if Find(entries, b => ContainsMatch(b, lowerSearch)).None? {
      forall j | 0 <= j < |entries| ensures !ExactMatch(entries[j], lowerSearch) {
        if ExactMatch(entries[j], lowerSearch) {
          ExactImpliesContains(entries[j], lowerSearch);
        }
      }
    }
  }

  // ---------------------------------------------------------------------
  // Sending

  datatype Message = Message(sender: string, text: string)

  /** The bot's answer: the directions to the building found, or an apology
      quoting the input and listing the buildings. */
  datatype Reply = Directions(bhavan: string, way: string) | NotFound(input: string)

  datatype SendResult = Ignored | Sent(userMessage: Message, reply: Reply, nextInput: string)

  /** handleSend: blank input (after trimming) does nothing; otherwise the
      input as typed is posted, looked up untrimmed, and the field cleared. */
  function HandleSend(entries: seq<Bhavan>, input: string): (r: SendResult)
    ensures r == Ignored <==> Trim(input) == []
    ensures r.Sent? ==> r.userMessage == Message("user", input) && r.nextInput == []
    ensures r.Sent? ==> (r.reply.NotFound? <==> FindBhavan(entries, input).None?)
    ensures r.Sent? && r.reply.NotFound? ==> r.reply.input == input
    ensures r.Sent? && r.reply.Directions? ==>
      exists j :: 0 <= j < |entries| && entries[j] == Bhavan(r.reply.bhavan, r.reply.way)
  {
    if Trim(input) == [] then Ignored
    else
      var found := FindBhavan(entries, input);
      var reply := if found.Some? then Directions(found.value.bhavan, found.value.way) else NotFound(input);
      Sent(Message("user", input), reply, [])
  }

  /** The search is the input as typed, surrounding spaces included: the
      reply is an apology exactly when no lower-cased name contains the
      lower-cased input. */
  lemma UntrimmedSearch(entries: seq<Bhavan>, input: string)
    requires Trim(input) != []
    ensures HandleSend(entries, input).Sent?
    ensures HandleSend(entries, input).reply.NotFound? <==>
      forall j :: 0 <= j < |entries| ==> !ContainsMatch(entries[j], ToLower(input))
  {
    FindBhavanNull(entries, input);
  }
}
