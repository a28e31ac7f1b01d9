/** The record of answers the contact wizard collects: four text fields,
    all empty until the visitor fills them in. */
module ContactForm {

  /** The four keys of the form record. */
  datatype Field = Name | Service | Budget | Contact

  datatype Form = Form(name: string, service: string, budget: string, contact: string)

  /** The record the page starts with: every field is the empty string. */
  const EmptyForm: Form := Form("", "", "", "")

  /** The three services offered as buttons on the second step. */
  const ServiceOptions: seq<string> := ["Website Design", "Brand Identity", "Content Creation"]

  /** The three budget ranges offered as buttons on the third step. */
  const BudgetOptions: seq<string> := ["$500–$1,000", "$1,000–$3,000", "$3,000+"]

  /** A string is truthy in JavaScript exactly when it is not empty; no trimming happens. */
  predicate Filled(v: string)
    ensures Filled(v) <==> |v| > 0
  {
    v != ""
  }

  /** What an `<input type="text">` can hold: its value sanitization strips line feeds and
      carriage returns, so the value handed to the change handler has neither. */
  predicate SingleLine(v: string) {
    '\n' !in v && '\r' !in v
  }

  function FieldOf(r: Form, f: Field): string {
    match f
    case Name => r.name
    case Service => r.service
    case Budget => r.budget
    case Contact => r.contact
  }

  /** `{...form, [field]: value}`: a copy of `r` with one field replaced. */
  function Update(r: Form, f: Field, v: string): (u: Form)
    ensures FieldOf(u, f) == v
    ensures forall g :: g != f ==> FieldOf(u, g) == FieldOf(r, g)
  {
    match f
    case Name => r.(name := v)
    case Service => r.(service := v)
    case Budget => r.(budget := v)
    case Contact => r.(contact := v)
  }

  /** Two records that agree on every field are the same record. */
  lemma FieldsDetermineForm(r: Form, s: Form)
    requires forall g :: FieldOf(r, g) == FieldOf(s, g)
    ensures r == s
  {
    assert FieldOf(r, Name) == FieldOf(s, Name);
    assert FieldOf(r, Service) == FieldOf(s, Service);
    assert FieldOf(r, Budget) == FieldOf(s, Budget);
    assert FieldOf(r, Contact) == FieldOf(s, Contact);
  }

  /** Repeating the same change is the same as making it once. */
  lemma UpdateIdempotent(r: Form, f: Field, v: string)
    ensures Update(Update(r, f, v), f, v) == Update(r, f, v)
  {
    FieldsDetermineForm(Update(Update(r, f, v), f, v), Update(r, f, v));
  }

  /** Writing back a field's current value changes nothing. */
  lemma UpdateWithCurrentValue(r: Form, f: Field)
    ensures Update(r, f, FieldOf(r, f)) == r
  {
    FieldsDetermineForm(Update(r, f, FieldOf(r, f)), r);
  }

  /** A lone space already counts as an answer. */
  lemma SpaceIsFilled()
    ensures Filled(" ") && !Filled("")
  {
  }
}
