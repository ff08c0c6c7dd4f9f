/**
 * The onboarding wizard: three steps (preferred days, learning preferences,
 * transcript upload) with Next and Back buttons. Rendering and the upload
 * request are not modelled; the component's state and its updates are.
 */
module Onboarding {
  import opened Wrappers

  datatype Preferences = Preferences(
    preferredDays: seq<string>,
    assessmentType: string,
    attendanceRequired: string,
    classSize: string)

  const InitialPreferences := Preferences([], "", "", "")

  const PdfType := "application/pdf"

  /** The part of a browser File the component looks at. */
  datatype File = File(name: string, mimeType: string)

  predicate NoDuplicates(xs: seq<string>)
  {
    forall i, j :: 0 <= i < j < |xs| ==> xs[i] != xs[j]
  }

  // ---------------------------------------------------------------------------
  // toggleDay

  /** `days.filter(d => d !== day)`. */
  function Without(days: seq<string>, day: string): (r: seq<string>)
    ensures day !in r
    ensures forall d :: d != day ==> (d in r <==> d in days)
    ensures |r| <= |days|
  {
    if days == [] then []
    else if days[0] == day then Without(days[1..], day)
    else [days[0]] + Without(days[1..], day)
  }

  /** Filtering keeps the order: it distributes over concatenation. */
  lemma {:induction false} WithoutAppend(a: seq<string>, b: seq<string>, day: string)
    ensures Without(a + b, day) == Without(a, day) + Without(b, day)
  {
    if a == [] {
      assert a + b == b;
    } else {
      assert (a + b)[1..] == a[1..] + b;
      WithoutAppend(a[1..], b, day);
    }
  }

  /** Filtering out a day that is not there changes nothing. */
  lemma {:induction false} WithoutAbsent(days: seq<string>, day: string)
    requires day !in days
    ensures Without(days, day) == days
  {
    if days != [] {
      WithoutAbsent(days[1..], day);
    }
  }

  /** Filtering keeps a list free of repeats. */
  lemma {:induction false} WithoutNoDuplicates(days: seq<string>, day: string)
    requires NoDuplicates(days)
    ensures NoDuplicates(Without(days, day))
  {
    if days != [] {
      WithoutNoDuplicates(days[1..], day);
      if days[0] != day {
        assert days[0] !in days[1..];
      }
    }
  }

  /** The updater toggleDay applies to the preferred days. */
  function Toggled(days: seq<string>, day: string): (r: seq<string>)
    ensures day in r <==> day !in days
    ensures forall d :: d != day ==> (d in r <==> d in days)
    ensures day !in days ==> r == days + [day]
  {
    if day in days then Without(days, day) else days + [day]
  }

  /** Toggling a day twice, starting without it, restores the list. */
  lemma ToggleTwiceRestores(days: seq<string>, day: string)
    requires day !in days
    ensures Toggled(Toggled(days, day), day) == days
  {
    WithoutAppend(days, [day], day);
    WithoutAbsent(days, day);
  }

  /** Toggling a present day removes every occurrence and keeps the others in order. */
  lemma TogglePresent(days: seq<string>, day: string, i: nat)
    requires i < |days| && days[i] == day
    ensures Toggled(days, day) == Without(days[..i], day) + Without(days[i + 1..], day)
  {
    assert days == days[..i] + [day] + days[i + 1..];
    WithoutAppend(days[..i] + [day], days[i + 1..], day);
    WithoutAppend(days[..i], [day], day);
  }

  /** Toggling keeps the preferred days free of repeats. */
  lemma ToggleNoDuplicates(days: seq<string>, day: string)
    requires NoDuplicates(days)
    ensures NoDuplicates(Toggled(days, day))
  {
    if day in days {
      WithoutNoDuplicates(days, day);
    }
  }

  // ---------------------------------------------------------------------------
  // canProceed

  /** Whether the Next button is enabled at `step`. */
  function CanProceed(step: int, prefs: Preferences, transcript: Option<File>): (r: bool)
    ensures r ==> 1 <= step <= 3
    ensures step == 1 ==> (r <==> prefs.preferredDays != [])
    ensures step == 2 ==> (r <==> prefs.assessmentType != "" && prefs.attendanceRequired != "" && prefs.classSize != "")
    ensures step == 3 ==> (r <==> transcript.Some?)
  {
    if step == 1 then |prefs.preferredDays| > 0
    else if step == 2 then prefs.assessmentType != "" && prefs.attendanceRequired != "" && prefs.classSize != ""
    else if step == 3 then transcript != None
    else false
  }

  /** A file is accepted as a transcript only when its type is PDF. */
  function AcceptsFile(file: Option<File>): (r: bool)
    ensures r ==> file.Some? && file.value.mimeType == PdfType
  {
    file.Some? && file.value.mimeType == PdfType
  }

  // ---------------------------------------------------------------------------
  // The component's state

  class Wizard {
    var step: int
    var preferences: Preferences
    var transcript: Option<File>

    /** The step is one of the three screens; a day is chosen at most once. */
    ghost predicate Valid()
      reads this
    {
      1 <= step <= 3 && NoDuplicates(preferences.preferredDays)
    }

    constructor ()
      ensures Valid()
      ensures step == 1 && preferences == InitialPreferences && transcript == None
    {
      step := 1;
      preferences := InitialPreferences;
      transcript := None;
    }

    /** toggleDay: add the day at the end when absent, drop it when present. */
    method ToggleDay(day: string)
      requires Valid()
      modifies this
      ensures Valid()
      ensures preferences == old(preferences).(preferredDays := Toggled(old(preferences.preferredDays), day))
      ensures step == old(step) && transcript == old(transcript)
    {
      ToggleNoDuplicates(preferences.preferredDays, day);
      preferences := preferences.(preferredDays := Toggled(preferences.preferredDays, day));
    }

    /** The assessment buttons: set assessmentType only. */
    method SetAssessmentType(value: string)
      requires Valid()
      modifies this
      ensures Valid()
      ensures preferences == old(preferences).(assessmentType := value)
      ensures step == old(step) && transcript == old(transcript)
    {
      preferences := preferences.(assessmentType := value);
    }

    /** The attendance buttons: set attendanceRequired only. */
    method SetAttendanceRequired(value: string)
      requires Valid()
      modifies this
      ensures Valid()
      ensures preferences == old(preferences).(attendanceRequired := value)
      ensures step == old(step) && transcript == old(transcript)
    {
      preferences := preferences.(attendanceRequired := value);
    }

    /** The class-size buttons: set classSize only. */
    method SetClassSize(value: string)
      requires Valid()
      modifies this
      ensures Valid()
      ensures preferences == old(preferences).(classSize := value)
      ensures step == old(step) && transcript == old(transcript)
    {
      preferences := preferences.(classSize := value);
    }

    /**
     * handleFileUpload up to the upload request: no file does nothing, a file
     * that is not a PDF is rejected, a PDF becomes the transcript.
     */
    method HandleFileUpload(file: Option<File>) returns (accepted: bool)
      requires Valid()
      modifies this
      ensures Valid()
      ensures accepted == AcceptsFile(file)
      ensures transcript == if accepted then file else old(transcript)
      ensures step == old(step) && preferences == old(preferences)
    {
      if file.None? {
        return false;
      }
      if file.value.mimeType != PdfType {
        return false;
      }
      transcript := file;
      accepted := true;
    }

    /** The Remove button beside an uploaded transcript. */
    method RemoveTranscript()
      requires Valid()
      modifies this
      ensures Valid()
      ensures transcript == None
      ensures step == old(step) && preferences == old(preferences)
    {
      transcript := None;
    }

    /** handleNext: advance before the last step; on the last step hand the preferences to onComplete. */
    method HandleNext() returns (completed: Option<Preferences>)
      requires Valid()
      modifies this
      ensures Valid()
      ensures old(step) < 3 ==> step == old(step) + 1 && completed == None
      ensures old(step) == 3 ==> step == 3 && completed == Some(preferences)
      ensures preferences == old(preferences) && transcript == old(transcript)
    {
      if step < 3 {
        step := step + 1;
        completed := None;
      } else {
        completed := Some(preferences);
      }
    }

    /** A click on Next: the button is disabled unless canProceed holds. */
    method PressNext() returns (completed: Option<Preferences>)
      requires Valid()
      modifies this
      ensures Valid()
      ensures !CanProceed(old(step), old(preferences), old(transcript)) ==> step == old(step) && completed == None
      ensures CanProceed(old(step), old(preferences), old(transcript)) && old(step) < 3 ==>
        step == old(step) + 1 && completed == None
      ensures CanProceed(old(step), old(preferences), old(transcript)) && old(step) == 3 ==>
        step == 3 && completed == Some(preferences)
      ensures completed.Some? ==>
        old(step) == 3 && step == 3 && transcript.Some? && completed.value == preferences
      ensures preferences == old(preferences) && transcript == old(transcript)
    {
      if CanProceed(step, preferences, transcript) {
        completed := HandleNext();
      } else {
        completed := None;
      }
    }

    /** A click on Back: the button is shown only after the first step. */
    method PressBack()
      requires Valid()
      modifies this
      ensures Valid()
      ensures step == if old(step) > 1 then old(step) - 1 else old(step)
      ensures preferences == old(preferences) && transcript == old(transcript)
    {
      if step > 1 {
        step := step - 1;
      }
    }
  }
}
