/** cli/src/utils/config.ts: the part of components.json the CLI's string
    logic reads. Reading and writing the file is not part of this model. */
module CliConfig {
  /** The import aliases of components.json. An empty string stands for a
      falsy (missing or empty) alias. */
  datatype Aliases = Aliases(
    components: string,
    utils: string,
    ui: string,
    lib: string,
    composables: string)

  /** The aliases written by `init` when none are configured. */
  const DefaultAliases: Aliases :=
    Aliases("@/components", "@/lib/utils", "@/components/ui", "@/lib", "@/composables")
}
