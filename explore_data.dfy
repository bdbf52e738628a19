/** Data preparation and exploratory analysis: each raw ticket gets a label
    (its ticket type through the configured table, "Other" otherwise) and a
    text (subject, ". ", description); a stratified sample of the configured
    size is drawn; and for each label the three most common words and word
    pairs of its texts are reported. Reading and writing CSV files and
    printing are not part of this model. */
module ExploreData {
  import opened Wrappers
  import Config
  import Sampling
  import Ngrams
  import StableSort

  /** The columns of one raw dataset row that this step reads; a missing
      'Ticket Type' cell is `None`. */
  datatype RawTicket = RawTicket(ticketType: Option<string>, subject: string, description: string)

  /** A row of the sample: its position in the full frame, its text and its label. */
  datatype SampledRow = SampledRow(row: nat, text: string, category: string)

  /** The order in which `groupby` visits the labels: sorted. */
  const GroupOrder: seq<string> := ["Billing", "Other", "Technical"]

  /** `Ticket Type` through `TICKET_TYPE_MAP`, with `fillna('Other')` for
      types the table lacks and for missing cells. */
  function MapLabel(ticketType: Option<string>): (l: string)
    ensures l in Config.Labels
    ensures l != "Other" ==> ticketType.Some? && ticketType.value in Config.TicketTypeMap
    ensures ticketType.Some? && ticketType.value in Config.TicketTypeMap ==> l == Config.TicketTypeMap[ticketType.value]
  {
    if ticketType.Some? && ticketType.value in Config.TicketTypeMap then Config.TicketTypeMap[ticketType.value]
    else "Other"
  }

  /** `subject + ". " + description`. */
  function CombineText(subject: string, description: string): (t: string)
    ensures |t| == |subject| + 2 + |description|
    ensures t[..|subject|] == subject && t[|subject|..|subject| + 2] == ". " && t[|subject| + 2..] == description
  {
    subject + ". " + description
  }

  function LabelColumn(tickets: seq<RawTicket>): (ls: seq<string>)
    ensures |ls| == |tickets|
    ensures forall i :: 0 <= i < |tickets| ==> ls[i] == MapLabel(tickets[i].ticketType)
  {
    seq(|tickets|, i requires 0 <= i < |tickets| => MapLabel(tickets[i].ticketType))
  }

  function TextColumn(tickets: seq<RawTicket>): (ts: seq<string>)
    ensures |ts| == |tickets|
    ensures forall i :: 0 <= i < |tickets| ==> ts[i] == CombineText(tickets[i].subject, tickets[i].description)
  {
    seq(|tickets|, i requires 0 <= i < |tickets| => CombineText(tickets[i].subject, tickets[i].description))
  }

  /** The loaded frame; `labels` and `texts` (the 'label' and 'text' columns)
      are empty until those columns are assigned. */
  class TicketFrame {
    const tickets: seq<RawTicket>
    var labels: seq<string>
    var texts: seq<string>

    constructor (tickets: seq<RawTicket>)
      ensures this.tickets == tickets && labels == [] && texts == []
    {
      this.tickets := tickets;
      labels := [];
      texts := [];
    }

    /** `df['label'] = df['Ticket Type'].map(...).fillna('Other')`. */
    method MapTicketTypes()
      modifies this`labels
      ensures labels == LabelColumn(tickets)
      ensures forall i :: 0 <= i < |labels| ==> labels[i] in Config.Labels
    {
      labels := LabelColumn(tickets);
    }

    /** `df['text'] = df['Ticket Subject'] + ". " + df['Ticket Description']`. */
    method CombineTexts()
      modifies this`texts
      ensures texts == TextColumn(tickets)
    {
      texts := TextColumn(tickets);
    }
  }

  function Rows(sample: seq<SampledRow>): (rs: seq<nat>)
    ensures |rs| == |sample| && forall i :: 0 <= i < |sample| ==> rs[i] == sample[i].row
  {
    seq(|sample|, i requires 0 <= i < |sample| => sample[i].row)
  }

  lemma GroupOrderCoversLabels(tickets: seq<RawTicket>)
    ensures NoDuplicates(GroupOrder)
    ensures forall i :: 0 <= i < |tickets| ==> LabelColumn(tickets)[i] in GroupOrder
  {
  }

  /** With at least as many rows as the sample size, every group can supply its quota. */
  lemma QuotasFit(labels: seq<string>, keys: seq<string>, sampleSize: nat)
    requires sampleSize <= |labels|
    ensures forall j :: 0 <= j < |keys| ==>
      Sampling.GroupQuota(labels, keys[j], sampleSize) <= |Sampling.Group(labels, keys[j])|
  {
    forall j | 0 <= j < |keys|
      ensures Sampling.GroupQuota(labels, keys[j], sampleSize) <= |Sampling.Group(labels, keys[j])|
    {
      Sampling.QuotaWithinGroup(|Sampling.Group(labels, keys[j])|, sampleSize, |labels|);
    }
  }

  /** `df.loc[rows]` restricted to the 'text' and 'label' columns. */
  function SelectRows(texts: seq<string>, labels: seq<string>, rows: seq<nat>): (sample: seq<SampledRow>)
    requires |texts| == |labels|
    requires forall i :: 0 <= i < |rows| ==> rows[i] < |labels|
    ensures Rows(sample) == rows
    ensures forall i :: 0 <= i < |sample| ==> sample[i].text == texts[rows[i]] && sample[i].category == labels[rows[i]]
  {
    var sample := seq(|rows|, i requires 0 <= i < |rows| => SampledRow(rows[i], texts[rows[i]], labels[rows[i]]));
    assert Rows(sample) == rows;
    sample
  }

  /** `prepare_and_sample_data` on a loaded frame: succeeds exactly when the
      frame has at least `SAMPLE_SIZE` rows, and then returns exactly
      `SAMPLE_SIZE` distinct rows of the frame, each with its own label and
      text, starting with one draw per label of its quota. */
  method PrepareAndSample(tickets: seq<RawTicket>)
    returns (r: Result<seq<SampledRow>, Sampling.SampleError>, ghost strata: seq<seq<nat>>)
    ensures r.Ok? <==> |tickets| >= Config.SampleSize
    ensures r.Ok? ==> |r.value| == Config.SampleSize
    ensures r.Ok? ==> NoDuplicates(Rows(r.value))
    ensures r.Ok? ==> forall i :: 0 <= i < |r.value| ==>
      && r.value[i].row < |tickets|
      && r.value[i].category == MapLabel(tickets[r.value[i].row].ticketType)
      && r.value[i].text == CombineText(tickets[r.value[i].row].subject, tickets[r.value[i].row].description)
    ensures r.Ok? ==> Sampling.Stratified(LabelColumn(tickets), GroupOrder, Config.SampleSize, strata)
    ensures r.Ok? ==> var grouped := Sampling.Concat(strata);
      |grouped| <= |r.value| && Rows(r.value)[..|grouped|] == grouped
  {
    var frame := new TicketFrame(tickets);
    frame.MapTicketTypes();
    frame.CombineTexts();
    var labels, n, size := frame.labels, |tickets|, Config.SampleSize;
    GroupOrderCoversLabels(tickets);
    var grouped;
    grouped, strata := Sampling.SampleGroups(labels, GroupOrder, size);
    if grouped.Err? {
      assert n < size by {
        if n >= size {
          QuotasFit(labels, GroupOrder, size);
        }
      }
      return Err(grouped.error), strata;
    }
    assert |grouped.value| <= size && |grouped.value| <= n by {
      Sampling.QuotasSumAtMostSampleSize(labels, GroupOrder, size);
      Sampling.DistinctBelowBound(grouped.value, n);
    }
    var topped := Sampling.TopUp(n, grouped.value, size);
    if topped.Err? {
      return Err(topped.error), strata;
    }
    assert forall i :: 0 <= i < |topped.value| ==> topped.value[i] in topped.value;
    r := Ok(SelectRows(frame.texts, labels, topped.value));
  }

  /** The n-gram summary of one label. */
  datatype CategoryReport = CategoryReport(
    category: string,
    unigrams: seq<Ngrams.Entry<string>>,
    bigrams: seq<Ngrams.Entry<(string, string)>>)

  /** `df[df['label'] == category]['text']`, in row order. */
  function CategoryTexts(rows: seq<SampledRow>, category: string): seq<string> {
    if rows == [] then []
    else
      var last := rows[|rows| - 1];
      CategoryTexts(rows[..|rows| - 1], category) + (if last.category == category then [last.text] else [])
  }

  /** `" ".join(texts).lower().split()`. */
  function CategoryWords(rows: seq<SampledRow>, category: string): seq<string> {
    Ngrams.Words(Ngrams.Lower(Ngrams.JoinSpace(CategoryTexts(rows, category))))
  }

  /** One iteration of the loop in `run_eda`. */
  function ReportFor(rows: seq<SampledRow>, category: string): CategoryReport {
    var words := CategoryWords(rows, category);
    CategoryReport(category,
      Ngrams.MostCommon(Ngrams.Tally(words), 3),
      Ngrams.MostCommon(Ngrams.Tally(Ngrams.Bigrams(words)), 3))
  }

  /** The n-gram part of `run_eda`: one report per configured label, in the
      configured order. */
  method RunEda(rows: seq<SampledRow>) returns (reports: seq<CategoryReport>)
    ensures |reports| == |Config.Labels|
    ensures forall j :: 0 <= j < |reports| ==> reports[j] == ReportFor(rows, Config.Labels[j])
  {
    reports := [];
    for k := 0 to |Config.Labels|
      invariant |reports| == k
      invariant forall j :: 0 <= j < k ==> reports[j] == ReportFor(rows, Config.Labels[j])
    {
      var words := CategoryWords(rows, Config.Labels[k]);
      var unigrams := Ngrams.MostCommon(Ngrams.Tally(words), 3);
      var bigrams := Ngrams.MostCommon(Ngrams.Tally(Ngrams.Bigrams(words)), 3);
      reports := reports + [CategoryReport(Config.Labels[k], unigrams, bigrams)];
    }
  }

  function LowerEach(ts: seq<string>): (ls: seq<string>)
    ensures |ls| == |ts| && forall i :: 0 <= i < |ts| ==> ls[i] == Ngrams.Lower(ts[i])
  {
    seq(|ts|, i requires 0 <= i < |ts| => Ngrams.Lower(ts[i]))
  }

  lemma {:induction false} LowerJoined(ts: seq<string>)
    ensures Ngrams.Lower(Ngrams.JoinSpace(ts)) == Ngrams.JoinSpace(LowerEach(ts))
  {
    if |ts| > 1 {
      var init := ts[..|ts| - 1];
      LowerJoined(init);
      assert LowerEach(ts)[..|ts| - 1] == LowerEach(init);
      Ngrams.LowerAppend(Ngrams.JoinSpace(init) + " ", ts[|ts| - 1]);
      Ngrams.LowerAppend(Ngrams.JoinSpace(init), " ");
    }
  }

  /** A category's words are the lower-cased words of its texts, text after
      text: joining with spaces merges no two words. */
  lemma CategoryWordsPerText(rows: seq<SampledRow>, category: string)
    ensures CategoryWords(rows, category) == Ngrams.WordsOfEach(LowerEach(CategoryTexts(rows, category)))
  {
    LowerJoined(CategoryTexts(rows, category));
    Ngrams.WordsOfJoined(LowerEach(CategoryTexts(rows, category)));
  }

  /** Each report holds three unigrams and three bigrams, or all distinct
      ones when there are fewer, by non-increasing count; every count is the
      true number of occurrences among the category's words or consecutive
      word pairs; nothing left out occurs more often than something reported;
      and equal counts keep the order in which `Counter` first met them, the
      first ones met being the ones reported. */
  lemma ReportIsTopThree(rows: seq<SampledRow>, category: string)
    ensures var report, words := ReportFor(rows, category), CategoryWords(rows, category);
      && |report.unigrams| == (if 3 <= |Ngrams.FirstOccurrences(words)| then 3 else |Ngrams.FirstOccurrences(words)|)
      && |report.bigrams| == (if 3 <= |Ngrams.FirstOccurrences(Ngrams.Bigrams(words))| then 3
                              else |Ngrams.FirstOccurrences(Ngrams.Bigrams(words))|)
      && StableSort.SortedDesc(report.unigrams, Ngrams.EntryCount)
      && StableSort.SortedDesc(report.bigrams, Ngrams.EntryCount)
      && (forall c :: StableSort.WithKey(report.unigrams, Ngrams.EntryCount, c)
                        <= StableSort.WithKey(Ngrams.Tally(words), Ngrams.EntryCount, c))
      && (forall c :: StableSort.WithKey(report.bigrams, Ngrams.EntryCount, c)
                        <= StableSort.WithKey(Ngrams.Tally(Ngrams.Bigrams(words)), Ngrams.EntryCount, c))
      && (forall e :: e in report.unigrams ==> e.key in words && e.count == multiset(words)[e.key])
      && (forall e :: e in report.bigrams ==> e.key in Ngrams.Bigrams(words) && e.count == multiset(Ngrams.Bigrams(words))[e.key])
      && (forall i, w :: 0 <= i < |report.unigrams| && w in words && w !in Ngrams.Keys(report.unigrams) ==>
            report.unigrams[i].count >= multiset(words)[w])
      && (forall i, b :: 0 <= i < |report.bigrams| && b in Ngrams.Bigrams(words) && b !in Ngrams.Keys(report.bigrams) ==>
            report.bigrams[i].count >= multiset(Ngrams.Bigrams(words))[b])
  {
    var words := CategoryWords(rows, category);
    Ngrams.MostCommonOfTally(words, 3);
    Ngrams.MostCommonOfTally(Ngrams.Bigrams(words), 3);
  }

  /** Every reported unigram count is positive, and the counts of all words
      of a category add up to its number of words. */
  lemma CategoryCountsTotal(rows: seq<SampledRow>, category: string)
    ensures Ngrams.Total(Ngrams.Tally(CategoryWords(rows, category))) == |CategoryWords(rows, category)|
    ensures forall e :: e in ReportFor(rows, category).unigrams ==> e.count > 0
  {
    var words := CategoryWords(rows, category);
    Ngrams.TallyCounts(words);
    Ngrams.MostCommonOfTally(words, 3);
  }
}
