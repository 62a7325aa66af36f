/**
 * The reference store: a counter and the ordered list of issued records,
 * loaded once per page run and changed only by a successful form submission.
 */
module ReferenceStore {

  import opened Wrappers
  import opened Decimal
  import opened Reference

  /** The counter a fresh store starts from; the first reference issued carries 3459. */
  const DefaultLastNumber: nat := 3458

  /** One issued reference with the form fields it was issued for. Dates are kept as their text. */
  datatype Record = Record(
    referenceNumber: string,
    category: Category,
    projectName: string,
    description: string,
    user: string,
    rfqNumber: string,
    issueDate: string,
    deadlineDate: string)

  /** What one submission supplies: the form's fields and the logged-in user's identity. */
  datatype Form = Form(
    category: Category,
    projectName: string,
    description: string,
    user: string,
    rfqNumber: string,
    issueDate: string,
    deadlineDate: string)

  /** The persisted document `{"last_number": ..., "records": [...]}`. */
  datatype StoreData = StoreData(lastNumber: nat, records: seq<Record>)

  /** What reading the data file can meet: no file, a file that does not parse, or a parsed document. */
  datatype FileState = Absent | Unparseable | Parsed(data: StoreData)

  /** The result of one submission: the store afterwards and the record it generated, if any. */
  datatype Outcome = Outcome(store: StoreData, entry: Option<Record>)

  /** The store a first run starts from: counter 3458, no records, trivially well numbered. */
  function DefaultStore(): (d: StoreData)
    ensures d.lastNumber == 3458 && d.records == [] && WellNumbered(d)
  {
    StoreData(DefaultLastNumber, [])
  }

  /** Loading falls back to the default store, silently, when the file is missing or unreadable as JSON. */
  function Load(file: FileState): (d: StoreData)
    ensures file.Parsed? ==> d == file.data
    ensures !file.Parsed? ==> d.lastNumber == 3458 && d.records == []
  {
    match file
    case Parsed(data) => data
    case _ => DefaultStore()
  }

  /** The submission check: project name, description, user and RFQ number must all be non-empty. */
  predicate IsComplete(form: Form) {
    form.projectName != [] && form.description != [] && form.user != [] && form.rfqNumber != []
  }

  /** The record built for `form` once the counter has reached `n`. */
  function MakeRecord(form: Form, n: nat): Record {
    Record(FormatReference(form.category, n), form.category, form.projectName, form.description,
           form.user, form.rfqNumber, form.issueDate, form.deadlineDate)
  }

  /** One press of the submit button, as a function of the store before it. */
  function SubmitForm(d: StoreData, form: Form): (o: Outcome)
    ensures o.entry.Some? <==> IsComplete(form)
  {
    if !IsComplete(form) then
      Outcome(d, None)
    else
      var n := d.lastNumber + 1;
      var entry := MakeRecord(form, n);
      Outcome(StoreData(n, d.records + [entry]), Some(entry))
  }

  /** A run of submissions, one after the other. */
  function SubmitAll(d: StoreData, forms: seq<Form>): StoreData
    decreases |forms|
  {
    if forms == [] then d else SubmitAll(SubmitForm(d, forms[0]).store, forms[1..])
  }

  /**
   * The shape of every store reachable from the default one: the i-th record carries
   * the number 3459 + i, and the counter equals the number of the last record issued.
   */
  predicate WellNumbered(d: StoreData) {
    d.lastNumber == DefaultLastNumber + |d.records| &&
    forall i :: 0 <= i < |d.records| ==>
      d.records[i].referenceNumber == FormatReference(d.records[i].category, DefaultLastNumber + 1 + i)
  }

  /** The number after the hyphen of a record's reference, when it has one. */
  function SuffixOf(r: Record): Option<nat> {
    match ParseReference(r.referenceNumber)
    case Some((_, n)) => Some(n)
    case None => None
  }

  /** An incomplete form changes nothing and generates no record. */
  lemma SubmitIncompleteUnchanged(d: StoreData, form: Form)
    requires !IsComplete(form)
    ensures SubmitForm(d, form) == Outcome(d, None)
  {
  }

  /**
   * A complete form moves the counter up by exactly one and appends exactly one record,
   * whose fields are the form's and whose reference splits back into the category and the new counter.
   */
  lemma SubmitComplete(d: StoreData, form: Form)
    requires IsComplete(form)
    ensures var o := SubmitForm(d, form);
      && o.store.lastNumber == d.lastNumber + 1
      && |o.store.records| == |d.records| + 1
      && o.store.records[..|d.records|] == d.records
      && o.entry.Some? && o.store.records[|d.records|] == o.entry.value
      && o.entry.value.category == form.category
      && o.entry.value.projectName == form.projectName
      && o.entry.value.description == form.description
      && o.entry.value.user == form.user
      && o.entry.value.rfqNumber == form.rfqNumber
      && o.entry.value.issueDate == form.issueDate
      && o.entry.value.deadlineDate == form.deadlineDate
      && o.entry.value.referenceNumber == FormatReference(form.category, o.store.lastNumber)
      && ParseReference(o.entry.value.referenceNumber) == Some((form.category, o.store.lastNumber))
  {
    var o := SubmitForm(d, form);
    assert o.store.records[..|d.records|] == d.records;
    ParseFormatReference(form.category, d.lastNumber + 1);
  }

  /** The default store is well numbered, whichever way loading fell back to it. */
  lemma LoadFallbackWellNumbered(file: FileState)
    requires !file.Parsed?
    ensures Load(file) == DefaultStore() && WellNumbered(Load(file))
  {
  }

  /** Every submission, complete or not, keeps a store well numbered. */
  lemma SubmitPreservesWellNumbered(d: StoreData, form: Form)
    requires WellNumbered(d)
    ensures WellNumbered(SubmitForm(d, form).store)
  {
  }

  /**
   * In a well-numbered store the suffixes strictly increase in insertion order, all lie above 3458,
   * none exceeds the counter, and so no two references are equal.
   */
  lemma {:induction false} WellNumberedSuffixes(d: StoreData)
    requires WellNumbered(d)
    ensures forall i :: 0 <= i < |d.records| ==>
      SuffixOf(d.records[i]).Some? && DefaultLastNumber < SuffixOf(d.records[i]).value <= d.lastNumber
    ensures forall i, j :: 0 <= i < j < |d.records| ==>
      SuffixOf(d.records[i]).Some? && SuffixOf(d.records[j]).Some? &&
      SuffixOf(d.records[i]).value < SuffixOf(d.records[j]).value
    ensures forall i, j :: 0 <= i < j < |d.records| ==> d.records[i].referenceNumber != d.records[j].referenceNumber
  {
    forall i | 0 <= i < |d.records|
      ensures SuffixOf(d.records[i]) == Some(DefaultLastNumber + 1 + i)
    {
      ParseFormatReference(d.records[i].category, DefaultLastNumber + 1 + i);
    }
  }

  /**
   * Any run of submissions, complete or not, keeps the earlier records as they were, appends
   * at most one record per form, and raises the counter by exactly the number of records appended.
   */
  lemma {:induction false} SubmitAllGrows(d: StoreData, forms: seq<Form>)
    ensures var d' := SubmitAll(d, forms);
      && |d.records| <= |d'.records| <= |d.records| + |forms|
      && d'.records[..|d.records|] == d.records
      && d'.lastNumber == d.lastNumber + |d'.records| - |d.records|
    decreases |forms|
  {
    if forms != [] {
      var d1 := SubmitForm(d, forms[0]).store;
      SubmitAllGrows(d1, forms[1..]);
      var d' := SubmitAll(d1, forms[1..]);
      assert d'.records[..|d.records|] == d'.records[..|d1.records|][..|d.records|];
    }
  }

  /** The records that complete forms issue, one after the other, once the counter stands at `from`. */
  function Issued(forms: seq<Form>, from: nat): (r: seq<Record>)
    ensures |r| == |forms|
    decreases |forms|
  {
    if forms == [] then [] else [MakeRecord(forms[0], from + 1)] + Issued(forms[1..], from + 1)
  }

  /** A run whose first form is complete starts with that form's submission. */
  lemma SubmitStep(d: StoreData, forms: seq<Form>)
    requires forms != [] && IsComplete(forms[0])
    ensures SubmitAll(d, forms)
         == SubmitAll(StoreData(d.lastNumber + 1, d.records + [MakeRecord(forms[0], d.lastNumber + 1)]), forms[1..])
  {
  }

  /** The first issued record comes before those the rest of the forms issue. */
  lemma IssuedStep(forms: seq<Form>, from: nat)
    requires forms != []
    ensures Issued(forms, from) == [MakeRecord(forms[0], from + 1)] + Issued(forms[1..], from + 1)
  {
  }

  /** The k-th issued record is built from the k-th form with the number `from + 1 + k`. */
  lemma {:induction false} IssuedAt(forms: seq<Form>, from: nat, k: nat)
    requires k < |forms|
    ensures Issued(forms, from)[k] == MakeRecord(forms[k], from + 1 + k)
    decreases k
  {
    IssuedStep(forms, from);
    if k > 0 {
      IssuedAt(forms[1..], from + 1, k - 1);
      assert forms[1..][k - 1] == forms[k];
    }
  }

  /**
   * N complete submissions starting from a counter L end at L + N and append, in order,
   * the records `<category_i>-<L + i>` for i = 1..N after the records already present.
   */
  lemma {:induction false} SubmitAllComplete(d: StoreData, forms: seq<Form>)
    requires forall k :: 0 <= k < |forms| ==> IsComplete(forms[k])
    ensures SubmitAll(d, forms) == StoreData(d.lastNumber + |forms|, d.records + Issued(forms, d.lastNumber))
    decreases |forms|
  {
    if forms != [] {
      var first, rest := forms[0], forms[1..];
      var r := MakeRecord(first, d.lastNumber + 1);
      var d1 := StoreData(d.lastNumber + 1, d.records + [r]);
      SubmitStep(d, forms);
      SubmitAllComplete(d1, rest);
      IssuedStep(forms, d.lastNumber);
      assert (d.records + [r]) + Issued(rest, d.lastNumber + 1) == d.records + ([r] + Issued(rest, d.lastNumber + 1));
    }
  }

  /** The store as the running page holds it: `store["last_number"]` and `store["records"]`. */
  class Store {
    var lastNumber: nat
    var records: seq<Record>

    function Data(): StoreData
      reads this
    {
      StoreData(lastNumber, records)
    }

    /** `store = load_data()`. */
    constructor (file: FileState)
      ensures Data() == Load(file)
      ensures !file.Parsed? ==> WellNumbered(Data())
    {
      var d := Load(file);
      lastNumber := d.lastNumber;
      records := d.records;
    }

    /**
     * Handles a press of the submit button: an incomplete form is rejected and nothing changes;
     * otherwise the counter goes up by one, a record with the new reference is appended and returned.
     */
    method Submit(form: Form) returns (entry: Option<Record>)
      modifies this
      ensures !IsComplete(form) ==> entry == None && lastNumber == old(lastNumber) && records == old(records)
      ensures IsComplete(form) ==>
        && lastNumber == old(lastNumber) + 1
        && entry == Some(MakeRecord(form, lastNumber))
        && records == old(records) + [entry.value]
      ensures Outcome(Data(), entry) == SubmitForm(old(Data()), form)
      ensures old(WellNumbered(Data())) ==> WellNumbered(Data())
    {
      ghost var before := Data();
      if !IsComplete(form) {
        entry := None;
      } else {
        lastNumber := lastNumber + 1;
        var generated := MakeRecord(form, lastNumber);
        records := records + [generated];
        entry := Some(generated);
      }
      if WellNumbered(before) {
        SubmitPreservesWellNumbered(before, form);
      }
    }
  }

}
