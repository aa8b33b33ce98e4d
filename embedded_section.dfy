/**
 * The embedded-section grammar: a grammar whose step holds a whole section of another
 * fixture's steps. Its type is 'embedded-section'; without a title of its own it takes
 * the embedded fixture's title. A step it builds carries the section read from the step's
 * raw data (an empty collection list when there is none), a new step carries an empty
 * section of the embedded fixture. Navigation never moves from the grammar's own step to a
 * neighbour: the next and previous locations are always none, and the last location is
 * whatever the embedded section gives as its last.
 */
module EmbeddedSections {
  import opened Wrappers

  /** Raw step data as the client holds it: a JSON value. */
  datatype RawData = Object(properties: map<string, RawData>) | List(items: seq<RawData>) | Text(value: string)

  /** The embedded fixture: its key and its title. */
  datatype Fixture = Fixture(key: string, title: string)

  /** A section: its raw data and the fixture whose grammars its steps use. */
  datatype Section = Section(data: RawData, fixture: Fixture)

  /** A place in the specification that selection can move to. */
  datatype Location = Location(holder: string, cell: string)

  /** The grammar's metadata: the title the base grammar takes from it, if any, and the
      embedded fixture. */
  datatype Metadata = Metadata(title: Option<string>, fixture: Fixture)

  /** The raw data read when a step has none. */
  const EmptyCollections := Object(map["collections" := List([])])

  /** The raw data of a new section, with no steps. */
  const NoSteps := Object(map["steps" := List([])])

  /** JavaScript truthiness of an optional title: absent and empty are both false. */
  predicate HasTitle(title: Option<string>)
  {
    title.Some? && title.value != ""
  }

  /** A step of the specification, with the section the grammar wrote into it. */
  class Step {
    const data: Option<RawData>
    const args: seq<RawData>
    const grammar: EmbeddedSection
    var section: Option<Section>

    constructor (data: Option<RawData>, args: seq<RawData>, grammar: EmbeddedSection)
      ensures this.data == data && this.args == args && this.grammar == grammar && section.None?
    {
      this.data := data;
      this.args := args;
      this.grammar := grammar;
      section := None;
    }

    /** writeSection: attaches a section to the step. */
    method WriteSection(s: Section)
      modifies this
      ensures section == Some(s)
    {
      section := Some(s);
    }
  }

  class EmbeddedSection {
    const grammarType: string
    const fixture: Fixture
    const title: string

    /** The type is 'embedded-section', the fixture the metadata's; the title is the
        metadata's when it has one, else the fixture's. */
    constructor (metadata: Metadata)
      ensures grammarType == "embedded-section"
      ensures fixture == metadata.fixture
      ensures HasTitle(metadata.title) ==> title == metadata.title.value
      ensures !HasTitle(metadata.title) ==> title == metadata.fixture.title
    {
      grammarType := "embedded-section";
      fixture := metadata.fixture;
      title := if HasTitle(metadata.title) then metadata.title.value else metadata.fixture.title;
    }

    /** A step for raw data: the step keeps the data, has no arguments, belongs to this
        grammar, and holds the section read from the data, or from an empty collection
        list when there is no data. */
    method BuildStep(data: Option<RawData>, readRawData: RawData -> Section) returns (step: Step)
      ensures fresh(step)
      ensures step.data == data && step.args == [] && step.grammar == this
      ensures data.Some? ==> step.section == Some(readRawData(data.value))
      ensures data.None? ==> step.section == Some(readRawData(EmptyCollections))
    {
      step := new Step(data, [], this);
      var raw := if data.Some? then data.value else EmptyCollections;
      var section := readRawData(raw);
      step.WriteSection(section);
    }

    /** A new step: empty data, no arguments, this grammar, and an empty section of the
        embedded fixture. */
    method NewStep() returns (step: Step)
      ensures fresh(step)
      ensures step.data == Some(Object(map[])) && step.args == [] && step.grammar == this
      ensures step.section == Some(Section(NoSteps, fixture))
    {
      step := new Step(Some(Object(map[])), [], this);
      var section := Section(NoSteps, fixture);
      step.WriteSection(section);
    }

    /** There is no next location inside the grammar's own step. */
    function SelectNext(location: Location): (next: Option<Location>)
      ensures next.None?
    {
      None
    }

    /** There is no previous location inside the grammar's own step. */
    function SelectPrevious(location: Location): (previous: Option<Location>)
      ensures previous.None?
    {
      None
    }

    /** The last location of a step holding a section is the section's last location for
        that step. */
    function SelectLast(step: Step, sectionSelectLast: (Section, Step) -> Option<Location>): (last: Option<Location>)
      reads step
      requires step.section.Some?
      ensures last == sectionSelectLast(step.section.value, step)
    {
      sectionSelectLast(step.section.value, step)
    }
  }

  /** A grammar built without a title is titled by its fixture; with one it keeps it. */
  method TitleScenarios() returns (untitled: EmbeddedSection, blank: EmbeddedSection, titled: EmbeddedSection)
    ensures untitled.title == "Math" && blank.title == "Math" && titled.title == "Arithmetic"
    ensures untitled.grammarType == "embedded-section"
  {
    var math := Fixture("Math", "Math");
    untitled := new EmbeddedSection(Metadata(None, math));
    blank := new EmbeddedSection(Metadata(Some(""), math));
    titled := new EmbeddedSection(Metadata(Some("Arithmetic"), math));
  }

  /** Building a step from no data and from an explicit empty collection list gives the
      same section. */
  method NullDataScenario(grammar: EmbeddedSection, readRawData: RawData -> Section) returns (fromNull: Step, fromEmpty: Step)
    ensures fromNull.section == fromEmpty.section
    ensures fromNull.data.None?
  {
    fromNull := grammar.BuildStep(None, readRawData);
    fromEmpty := grammar.BuildStep(Some(EmptyCollections), readRawData);
  }
}
