/** What both abstraction levels of the bus share. */
module Bus {
  // Slave index that stands for the plug & play configuration area.
  const PNP_ID: nat := 16

  datatype Command = Read | Write | Ignore
}
