/** The upload hook of src/hooks/useFileUpload.ts: the selected files and
    the error message, both nullable, changed by a new selection or by
    clearing. React's state cells become the fields of one object; the
    optional validator is fixed when the hook is created. */
module UseFileUpload {
  import opened Wrappers
  import FileUtils

  /** A `FileList`. */
  type FileList = seq<FileUtils.FileInfo>

  const InvalidFilesMessage: string := "Uno o más archivos no son válidos."

  class FileUpload {
    var files: Option<FileList>
    var error: Option<string>
    const validateFiles: Option<FileList -> bool>

    /** An error is only ever shown with no files kept. */
    predicate Valid()
      reads this
    {
      error.Some? ==> files.None?
    }

    /** `useFileUpload(validateFiles)`: both cells start out null. */
    constructor(validateFiles: Option<FileList -> bool>)
      ensures this.validateFiles == validateFiles
      ensures files.None? && error.None?
      ensures Valid()
    {
      this.validateFiles := validateFiles;
      files := None;
      error := None;
    }

    /** The list a selection keeps, if any. */
    function Accepted(newFiles: FileList): (ok: bool)
      reads this
      ensures validateFiles.None? ==> ok
    {
      validateFiles.None? || validateFiles.value(newFiles)
    }

    /** `handleFileChange(newFiles)`: a null selection clears both cells;
        a selection the validator refuses drops the files and shows the
        message; any other selection is kept and the error cleared. */
    method HandleFileChange(newFiles: Option<FileList>)
      modifies this
      ensures newFiles.None? ==> files.None? && error.None?
      ensures newFiles.Some? && !Accepted(newFiles.value) ==> files.None? && error == Some(InvalidFilesMessage)
      ensures newFiles.Some? && Accepted(newFiles.value) ==> files == newFiles && error.None?
      ensures Valid()
    {
      if newFiles.None? {
        files := None;
        error := None;
        return;
      }
      if validateFiles.Some? && !validateFiles.value(newFiles.value) {
        error := Some(InvalidFilesMessage);
        files := None;
        return;
      }
      files := newFiles;
      error := None;
    }

    /** `clearFiles`: both cells back to null. */
    method ClearFiles()
      modifies this
      ensures files.None? && error.None?
      ensures Valid()
    {
      files := None;
      error := None;
    }
  }
}
