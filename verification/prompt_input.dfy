/**
 * The prompt form: a text area whose content is handed to the generation
 * callback `onSubmit`, together with the current SVG when the page is in
 * edit mode. Every call of `onSubmit` is recorded in a ghost log.
 */
module PromptInput {
  import opened Options
  import opened Strings
  import GenerateIcon

  /** The arguments of one call to `onSubmit`. */
  datatype Submission = Submission(prompt: string, svg: Option<string>)

  /** The guard `prompt.trim() && !isLoading`. */
  function CanSubmit(prompt: string, isLoading: bool): (b: bool)
    ensures b <==> !AllWhiteSpace(prompt) && !isLoading
  {
    TrimEmptyIffBlank(prompt);
    Trim(prompt) != "" && !isLoading
  }

  /** The second argument of `onSubmit`: `isEditMode ? currentSvg : null`. */
  function SvgArgument(isEditMode: bool, currentSvg: Option<string>): (r: Option<string>)
    ensures Truthy(r) <==> isEditMode && Truthy(currentSvg)
    ensures !isEditMode ==> r == None
  {
    if isEditMode then currentSvg else None
  }

  /** The key combination that submits: Enter with Ctrl or with Cmd. */
  predicate IsSubmitShortcut(key: string, ctrlKey: bool, metaKey: bool): (b: bool)
    ensures !ctrlKey && !metaKey ==> !b
    ensures ctrlKey || metaKey ==> (b <==> key == "Enter")
  {
    (ctrlKey || metaKey) && key == "Enter"
  }

  /** What every recorded call looks like: a non-blank prompt, and an SVG only if it is non-empty. */
  ghost predicate WellFormed(s: Submission) {
    !AllWhiteSpace(s.prompt) && (s.svg.Some? ==> Truthy(s.svg))
  }

  /**
   * Tied to the generation endpoint: a submission in edit mode is answered
   * with the edit template, and any other with the creation template.
   */
  lemma SubmissionSelectsTemplate(prompt: string, isEditMode: bool, currentSvg: Option<string>)
    requires isEditMode == Truthy(currentSvg)
    ensures StartsWith(GenerateIcon.BuildPrompt(prompt, SvgArgument(isEditMode, currentSvg)), GenerateIcon.EditMarker)
        <==> isEditMode
  {
    GenerateIcon.PromptModeIsRecognisable(prompt, SvgArgument(isEditMode, currentSvg));
  }

  class PromptForm {
    var prompt: string
    var isEditMode: bool
    // The parent's props.
    var isLoading: bool
    var currentSvg: Option<string>
    /** The calls made to `onSubmit`, oldest first. */
    ghost var submitted: seq<Submission>

    /** Edit mode follows the current SVG, and every call so far had a usable prompt. */
    ghost predicate Valid()
      reads this
    {
      && isEditMode == Truthy(currentSvg)
      && forall i :: 0 <= i < |submitted| ==> WellFormed(submitted[i])
    }

    /** The first render followed by the edit-mode effect. */
    constructor (isLoadingProp: bool, currentSvgProp: Option<string>)
      ensures Valid()
      ensures prompt == "" && isLoading == isLoadingProp && currentSvg == currentSvgProp
      ensures submitted == []
    {
      prompt := "";
      isLoading := isLoadingProp;
      currentSvg := currentSvgProp;
      isEditMode := false;
      submitted := [];
      new;
      isEditMode := Truthy(currentSvg);
    }

    /** A render with new props, followed by the edit-mode effect `setIsEditMode(!!currentSvg)`. */
    method UpdateProps(isLoadingProp: bool, currentSvgProp: Option<string>)
      requires Valid()
      modifies this
      ensures Valid()
      ensures isLoading == isLoadingProp && currentSvg == currentSvgProp
      ensures isEditMode == Truthy(currentSvgProp)
      ensures prompt == old(prompt) && submitted == old(submitted)
    {
      isLoading := isLoadingProp;
      currentSvg := currentSvgProp;
      isEditMode := Truthy(currentSvg);
    }

    /** The text area's `onChange`, and the `setPrompt` handle. */
    method SetPrompt(newPrompt: string)
      requires Valid()
      modifies this`prompt
      ensures Valid()
      ensures prompt == newPrompt
    {
      prompt := newPrompt;
    }

    /** Whether the submit button is disabled: `isLoading || !prompt.trim()`. */
    function SubmitDisabled(): (disabled: bool)
      reads this
      ensures disabled <==> !CanSubmit(prompt, isLoading)
    {
      isLoading || Trim(prompt) == ""
    }

    /** `handleSubmit`: pass the prompt on, with the SVG in edit mode, and empty the text area. */
    method HandleSubmit()
      requires Valid()
      modifies this
      ensures Valid()
      ensures CanSubmit(old(prompt), isLoading) ==>
        && submitted == old(submitted) + [Submission(old(prompt), SvgArgument(isEditMode, currentSvg))]
        && prompt == ""
      ensures !CanSubmit(old(prompt), isLoading) ==> submitted == old(submitted) && prompt == old(prompt)
      ensures isEditMode == old(isEditMode) && isLoading == old(isLoading) && currentSvg == old(currentSvg)
    {
      if CanSubmit(prompt, isLoading) {
        submitted := submitted + [Submission(prompt, SvgArgument(isEditMode, currentSvg))];
        prompt := "";
      }
    }

    /** `handleKeyDown`: Ctrl+Enter or Cmd+Enter submits as the form does; any other key does nothing. */
    method HandleKeyDown(key: string, ctrlKey: bool, metaKey: bool)
      requires Valid()
      modifies this
      ensures Valid()
      ensures IsSubmitShortcut(key, ctrlKey, metaKey) && CanSubmit(old(prompt), isLoading) ==>
        && submitted == old(submitted) + [Submission(old(prompt), SvgArgument(isEditMode, currentSvg))]
        && prompt == ""
      ensures !(IsSubmitShortcut(key, ctrlKey, metaKey) && CanSubmit(old(prompt), isLoading)) ==>
        submitted == old(submitted) && prompt == old(prompt)
      ensures isEditMode == old(isEditMode) && isLoading == old(isLoading) && currentSvg == old(currentSvg)
    {
      if (ctrlKey || metaKey) && key == "Enter" {
        if CanSubmit(prompt, isLoading) {
          submitted := submitted + [Submission(prompt, SvgArgument(isEditMode, currentSvg))];
          prompt := "";
        }
      }
    }

    /** The `setPromptAndSubmit` handle: show the text, then submit it without emptying the text area. */
    method SetPromptAndSubmit(newPrompt: string)
      requires Valid()
      modifies this
      ensures Valid()
      ensures prompt == newPrompt
      ensures submitted == old(submitted) +
        (if CanSubmit(newPrompt, isLoading) then [Submission(newPrompt, SvgArgument(isEditMode, currentSvg))] else [])
      ensures isEditMode == old(isEditMode) && isLoading == old(isLoading) && currentSvg == old(currentSvg)
    {
      prompt := newPrompt;
      if CanSubmit(newPrompt, isLoading) {
        submitted := submitted + [Submission(newPrompt, SvgArgument(isEditMode, currentSvg))];
      }
    }

    /** The `generateWithoutSettingPrompt` handle: always a new icon, never an edit; the text area is untouched. */
    method GenerateWithoutSettingPrompt(promptText: string)
      requires Valid()
      modifies this`submitted
      ensures Valid()
      ensures submitted == old(submitted) + (if CanSubmit(promptText, isLoading) then [Submission(promptText, None)] else [])
    {
      if CanSubmit(promptText, isLoading) {
        submitted := submitted + [Submission(promptText, None)];
      }
    }
  }
}
