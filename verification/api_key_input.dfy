/**
 * The API-key panel: the user types a key, saves it (after a prefix check)
 * or clears it. The browser's local storage entry for the key is kept as
 * a field.
 */
module ApiKeyInput {
  import opened Options
  import opened Strings

  const KeyPrefix := "sk-"

  /** The save check `inputValue.trim().startsWith('sk-')`. */
  predicate LooksLikeKey(input: string): (b: bool)
    ensures b <==> StartsWith(input[LeadingSpace(input)..], KeyPrefix)
  {
    TrimmedPrefix(input, KeyPrefix);
    StartsWith(Trim(input), KeyPrefix)
  }

  /** Only the first non-blank characters decide: white space around the key is ignored by the check. */
  lemma LooksLikeKeyIgnoresPadding(a: string, key: string, b: string)
    requires AllWhiteSpace(a) && AllWhiteSpace(b)
    ensures LooksLikeKey(a + key + b) <==> LooksLikeKey(key)
  {
    TrimIgnoresPadding(a, key, b);
  }

  /** A key that passes the check is never empty, nor blank. */
  lemma AcceptedKeyIsNotBlank(input: string)
    requires LooksLikeKey(input)
    ensures input != "" && !AllWhiteSpace(input)
  {
    TrimEmptyIffBlank(input);
  }

  class KeyPanel {
    // The parent's state, updated through `setApiKey` and `setIsKeyValid`.
    var apiKey: string
    var isKeyValid: bool
    // The panel's own state.
    var isVisible: bool
    var isSaved: bool
    var isExpanded: bool
    var inputValue: string
    var showError: bool
    /** The local storage entry `anthropic_api_key`. */
    var storedKey: Option<string>

    /**
     * A saved key is the one in storage and in the parent, and is not empty;
     * an error is only ever shown for a key marked invalid.
     */
    ghost predicate Valid()
      reads this
    {
      && (isSaved ==> storedKey == Some(apiKey) && apiKey != "")
      && (showError ==> !isKeyValid)
    }

    /** The first render: `apiKey` and `isKeyValid` are the parent's, null being passed as "". */
    constructor (apiKeyProp: string, isKeyValidProp: bool, stored: Option<string>)
      ensures Valid()
      ensures apiKey == apiKeyProp && isKeyValid == isKeyValidProp && storedKey == stored
      ensures !isVisible && !isSaved && !showError
      ensures isExpanded == (apiKeyProp == "") && inputValue == apiKeyProp
    {
      apiKey := apiKeyProp;
      isKeyValid := isKeyValidProp;
      isVisible := false;
      isSaved := false;
      isExpanded := apiKeyProp == "";
      inputValue := apiKeyProp;
      showError := false;
      storedKey := stored;
    }

    /** The mount effect: a non-empty stored key is loaded and trusted without re-checking its prefix. */
    method Mount()
      requires Valid() && !showError
      modifies this
      ensures Valid()
      ensures Truthy(old(storedKey)) ==>
        && apiKey == old(storedKey).value && inputValue == old(storedKey).value
        && isSaved && isKeyValid && !isExpanded
      ensures !Truthy(old(storedKey)) ==>
        && apiKey == old(apiKey) && inputValue == old(inputValue) && isSaved == old(isSaved)
        && isKeyValid == old(isKeyValid) && isExpanded == old(isExpanded)
      ensures storedKey == old(storedKey) && isVisible == old(isVisible) && showError == old(showError)
    {
      if storedKey.Some? && storedKey.value != "" {
        var savedKey := storedKey.value;
        apiKey := savedKey;
        inputValue := savedKey;
        isSaved := true;
        isKeyValid := true;
        isExpanded := false;
      }
    }

    /** `handleSave`: store the untrimmed input when its trimmed form starts with `sk-`, else flag an error. */
    method HandleSave()
      requires Valid()
      modifies this
      ensures Valid()
      ensures LooksLikeKey(old(inputValue)) ==>
        && storedKey == Some(old(inputValue)) && apiKey == old(inputValue)
        && isSaved && isKeyValid && !isExpanded && !showError
      ensures !LooksLikeKey(old(inputValue)) ==>
        && !isKeyValid && showError
        && storedKey == old(storedKey) && apiKey == old(apiKey)
        && isSaved == old(isSaved) && isExpanded == old(isExpanded)
      ensures inputValue == old(inputValue) && isVisible == old(isVisible)
    {
      if StartsWith(Trim(inputValue), KeyPrefix) {
        AcceptedKeyIsNotBlank(inputValue);
        storedKey := Some(inputValue);
        apiKey := inputValue;
        isSaved := true;
        isKeyValid := true;
        isExpanded := false;
        showError := false;
      } else {
        isKeyValid := false;
        showError := true;
      }
    }

    /** `handleClear`: forget the key everywhere and reopen the panel. */
    method HandleClear()
      requires Valid()
      modifies this
      ensures Valid()
      ensures storedKey == None && apiKey == "" && inputValue == ""
      ensures !isSaved && !isKeyValid && !isVisible && !showError && isExpanded
    {
      storedKey := None;
      apiKey := "";
      inputValue := "";
      isSaved := false;
      isKeyValid := false;
      isExpanded := true;
      isVisible := false;
      showError := false;
    }

    /** The input's `onChange`: take the typed text and hide any error. */
    method HandleInputChange(value: string)
      requires Valid()
      modifies this
      ensures Valid()
      ensures inputValue == value && !showError
      ensures apiKey == old(apiKey) && storedKey == old(storedKey) && isKeyValid == old(isKeyValid)
      ensures isSaved == old(isSaved) && isExpanded == old(isExpanded) && isVisible == old(isVisible)
    {
      inputValue := value;
      if showError {
        showError := false;
      }
    }

    /** Clicking the header folds or unfolds the panel. */
    method ToggleExpanded()
      requires Valid()
      modifies this`isExpanded
      ensures Valid()
      ensures isExpanded == !old(isExpanded)
    {
      isExpanded := !isExpanded;
    }

    /** The eye button shows or masks the typed key. */
    method ToggleVisible()
      requires Valid()
      modifies this`isVisible
      ensures Valid()
      ensures isVisible == !old(isVisible)
    {
      isVisible := !isVisible;
    }
  }
}
