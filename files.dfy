/** An uploaded file, as the model-level validators see it. */
module Files {

  /**
   * `extension` is the file name's suffix without the dot, as `FileExtensionValidator`
   * extracts it; `size` is `file.size`, in bytes.
   */
  datatype FileRef = FileRef(extension: string, size: nat)
}
