/** The static members of `RustConfig` that the core uses. Their definitions
    are not part of this model, so they enter as a value of this datatype:
    any keyword-escaping policy, any base module name and any file extension. */
module Config {

  datatype RustConfig = RustConfig(
    escapeReservedKeyword: string -> string,
    modelsBaseModule: string,
    fileExtension: string)
}
